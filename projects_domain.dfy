/**
 * The projects service's entities and its database: tags, projects, the
 * project-tag join table and works, with the integrity the handlers
 * maintain. Dates are whole seconds from `DateTime.MinValue`.
 */
module ProjectsDomain {
  import opened Wrappers
  import opened Text
  import opened DbOperations
  import opened Linq
  import opened JoinTable
  import opened ProjectEntity

  datatype Tag = Tag(id: int, name: string)

  /** A stored project; its tags are the `ProjectTag` rows it owns. */
  datatype ProjectRow = ProjectRow(id: int, name: string, description: Option<string>, url: Option<string>,
                                   version: Option<real>)

  datatype Work = Work(id: int, name: string, description: Option<string>, startDate: int, dueDate: int,
                       projectId: Option<int>)

  /** The requested name as the handlers compare it: `name.ToUpper().Trim()`. */
  function NameKey(name: string): string {
    Trim(ToUpper(name))
  }

  /** Trimming first changes nothing in the comparison. */
  lemma NameKeyTrim(name: string)
    ensures NameKey(Trim(name)) == NameKey(name)
  {
    UpperTrimCommute(name);
    UpperTrimCommute(Trim(name));
    TrimIdempotent(name);
  }

  /** A trimmed name upper-cased is its own key. */
  lemma TrimmedKey(name: string)
    requires Trimmed(name)
    ensures ToUpper(name) == NameKey(name)
  {
    TrimTrimmed(name);
    UpperTrimCommute(name);
  }

  /** A request name, once trimmed, is compared on its own key. */
  lemma TrimmedNameKey(name: string)
    ensures ToUpper(Trim(name)) == NameKey(name)
  {
    NameKeyTrim(name);
    TrimmedKey(Trim(name));
  }

  /** The tags whose stored name, upper-cased, is `key`. */
  function TagsKeyed(tags: map<int, Tag>, key: string): (r: set<int>)
    ensures forall id :: id in r <==> id in tags && ToUpper(tags[id].name) == key
  {
    set id | id in tags && ToUpper(tags[id].name) == key
  }

  /** The tags a request name matches: `name.ToUpper().Trim()` against the upper-cased stored name. */
  function TagsNamed(tags: map<int, Tag>, name: string): (r: set<int>)
    ensures forall id :: id in r <==> id in tags && ToUpper(tags[id].name) == NameKey(name)
  {
    TagsKeyed(tags, NameKey(name))
  }

  /** Stored tag names are trimmed and distinct after upper-casing. */
  ghost predicate TagNamesValid(tags: map<int, Tag>) {
    && (forall id :: id in tags ==> Trimmed(tags[id].name))
    && (forall a, b {:trigger ToUpper(tags[a].name), ToUpper(tags[b].name)} ::
          a in tags && b in tags && ToUpper(tags[a].name) == ToUpper(tags[b].name) ==> a == b)
  }

  /** Storing a trimmed name no other tag has keeps the names valid, and the name is now its own. */
  lemma PutTagName(tags: map<int, Tag>, tag: Tag)
    requires TagNamesValid(tags)
    requires Trimmed(tag.name) && TagsKeyed(tags, ToUpper(tag.name)) <= {tag.id}
    ensures TagNamesValid(tags[tag.id := tag])
    ensures TagsKeyed(tags[tag.id := tag], ToUpper(tag.name)) == {tag.id}
  {
    var r := tags[tag.id := tag];
    forall a, b | a in r && b in r && ToUpper(r[a].name) == ToUpper(r[b].name)
      ensures a == b
    {
      if a != tag.id && b != tag.id {
        assert tags[a].name == r[a].name && tags[b].name == r[b].name;
      }
    }
  }

  /** The projects whose stored name, upper-cased, is `key`. */
  function ProjectsKeyed(projects: map<int, ProjectRow>, key: string): (r: set<int>)
    ensures forall id :: id in r <==> id in projects && ToUpper(projects[id].name) == key
  {
    set id | id in projects && ToUpper(projects[id].name) == key
  }

  /** The projects a request name matches: `name.ToUpper().Trim()` against the upper-cased stored name. */
  function ProjectsNamed(projects: map<int, ProjectRow>, name: string): (r: set<int>)
    ensures forall id :: id in r <==> id in projects && ToUpper(projects[id].name) == NameKey(name)
  {
    ProjectsKeyed(projects, NameKey(name))
  }

  /** Stored project names are trimmed and distinct after upper-casing. */
  ghost predicate ProjectNamesValid(projects: map<int, ProjectRow>) {
    && (forall id :: id in projects ==> Trimmed(projects[id].name))
    && (forall a, b {:trigger ToUpper(projects[a].name), ToUpper(projects[b].name)} ::
          a in projects && b in projects && ToUpper(projects[a].name) == ToUpper(projects[b].name) ==> a == b)
  }

  /** Storing a trimmed name no other project has keeps the names valid, and the name is now its own. */
  lemma PutProjectName(projects: map<int, ProjectRow>, project: ProjectRow)
    requires ProjectNamesValid(projects)
    requires Trimmed(project.name) && ProjectsKeyed(projects, ToUpper(project.name)) <= {project.id}
    ensures ProjectNamesValid(projects[project.id := project])
    ensures ProjectsKeyed(projects[project.id := project], ToUpper(project.name)) == {project.id}
  {
    var r := projects[project.id := project];
    forall a, b | a in r && b in r && ToUpper(r[a].name) == ToUpper(r[b].name)
      ensures a == b
    {
      if a != project.id && b != project.id {
        assert projects[a].name == r[a].name && projects[b].name == r[b].name;
      }
    }
  }

  /** The works whose stored name, upper-cased, is `key`. */
  function WorksKeyed(works: map<int, Work>, key: string): (r: set<int>)
    ensures forall id :: id in r <==> id in works && ToUpper(works[id].name) == key
  {
    set id | id in works && ToUpper(works[id].name) == key
  }

  /** The works a request name matches: `name.ToUpper().Trim()` against the upper-cased stored name. */
  function WorksNamed(works: map<int, Work>, name: string): (r: set<int>)
    ensures forall id :: id in r <==> id in works && ToUpper(works[id].name) == NameKey(name)
  {
    WorksKeyed(works, NameKey(name))
  }

  /** Stored work names are trimmed and distinct after upper-casing. */
  ghost predicate WorkNamesValid(works: map<int, Work>) {
    && (forall id :: id in works ==> Trimmed(works[id].name))
    && (forall a, b {:trigger ToUpper(works[a].name), ToUpper(works[b].name)} ::
          a in works && b in works && ToUpper(works[a].name) == ToUpper(works[b].name) ==> a == b)
  }

  /** Storing a trimmed name no other work has keeps the names valid, and the name is now its own. */
  lemma PutWorkName(works: map<int, Work>, work: Work)
    requires WorkNamesValid(works)
    requires Trimmed(work.name) && WorksKeyed(works, ToUpper(work.name)) <= {work.id}
    ensures WorkNamesValid(works[work.id := work])
    ensures WorksKeyed(works[work.id := work], ToUpper(work.name)) == {work.id}
  {
    var r := works[work.id := work];
    forall a, b | a in r && b in r && ToUpper(r[a].name) == ToUpper(r[b].name)
      ensures a == b
    {
      if a != work.id && b != work.id {
        assert works[a].name == r[a].name && works[b].name == r[b].name;
      }
    }
  }

  /** Works are dated in order: `StartDate <= DueDate`. */
  ghost predicate WorkDatesValid(works: map<int, Work>) {
    forall id :: id in works ==> works[id].startDate <= works[id].dueDate
  }

  /** A work's `ProjectId` is unset or names a stored project. */
  predicate ProjectKnown(projects: map<int, ProjectRow>, projectId: Option<int>) {
    projectId.None? || projectId.value in projects
  }

  /** The works whose `ProjectId` is `projectId`. */
  function WorksOf(works: map<int, Work>, projectId: int): (r: set<int>)
    ensures forall id :: id in r <==> id in works && works[id].projectId == Some(projectId)
  {
    set id | id in works && works[id].projectId == Some(projectId)
  }

  /** Rows are keyed by their ids, below `nextId`. */
  ghost predicate KeyedBelow(tags: map<int, Tag>, projects: map<int, ProjectRow>, works: map<int, Work>, nextId: int) {
    && (forall id :: id in tags ==> tags[id].id == id && id < nextId)
    && (forall id :: id in projects ==> projects[id].id == id && id < nextId)
    && (forall id :: id in works ==> works[id].id == id && id < nextId)
  }

  ghost predicate TablesValid(tags: map<int, Tag>, projects: map<int, ProjectRow>, projectTags: map<int, Link>,
                              works: map<int, Work>, nextId: int) {
    && KeyedBelow(tags, projects, works, nextId)
    && TagNamesValid(tags)
    && ProjectNamesValid(projects)
    && WorkNamesValid(works)
    && WorkDatesValid(works)
    && LinksWithin(projectTags, projects.Keys, tags.Keys, nextId)
    && (forall id :: id in works ==> ProjectKnown(projects, works[id].projectId))
  }

  /** The row a project entity is saved as. */
  function RowOf(entity: Project): ProjectRow
    reads entity
  {
    ProjectRow(entity.id, entity.name, entity.description, entity.url, entity.version)
  }

  /** The projects service's tables. `ProjectTag` rows link a project (owner) to a tag id (target). */
  class ProjectsDb {
    var tags: map<int, Tag>
    var projects: map<int, ProjectRow>
    var projectTags: map<int, Link>
    var works: map<int, Work>
    /** The next identity the database hands out. */
    var nextId: int

    /**
     * Every row is keyed by its id and below `nextId`; tag, project and
     * work names are trimmed and distinct after upper-casing; works start
     * no later than they are due. The foreign keys the database enforces
     * hold: every `ProjectTag` row links a stored project to a stored tag,
     * and every work's `ProjectId` is unset or names a stored project.
     */
    ghost predicate Valid()
      reads this
    {
      TablesValid(tags, projects, projectTags, works, nextId)
    }

    constructor ()
      ensures Valid()
      ensures tags == map[] && projects == map[] && projectTags == map[] && works == map[]
    {
      tags, projects, projectTags, works := map[], map[], map[], map[];
      nextId := 1;
    }

    /** Stores a tag with a trimmed name no tag has, under the next identity. */
    method AddTag(tag: Tag)
      requires Valid()
      requires tag.id == nextId && Trimmed(tag.name) && TagsKeyed(tags, ToUpper(tag.name)) == {}
      modifies this
      ensures Valid()
      ensures tags == old(tags)[tag.id := tag] && nextId == old(nextId) + 1
      ensures TagsKeyed(tags, ToUpper(tag.name)) == {tag.id}
      ensures projects == old(projects) && projectTags == old(projectTags) && works == old(works)
    {
      PutTagName(tags, tag);
      tags := Add(tags, nextId, tag);
      nextId := nextId + 1;
    }

    /** Replaces a stored tag by one with the same id and a trimmed name no other tag has. */
    method UpdateTag(tag: Tag)
      requires Valid()
      requires tag.id in tags && Trimmed(tag.name) && TagsKeyed(tags, ToUpper(tag.name)) <= {tag.id}
      modifies this
      ensures Valid()
      ensures tags == old(tags)[tag.id := tag]
      ensures TagsKeyed(tags, ToUpper(tag.name)) == {tag.id}
      ensures projects == old(projects) && projectTags == old(projectTags) && works == old(works) && nextId == old(nextId)
    {
      PutTagName(tags, tag);
      tags := Update(tags, tag.id, tag);
    }

    /** Stores a work, dated in order, with a trimmed name no work has, under the next identity. */
    method AddWork(work: Work)
      requires Valid()
      requires work.id == nextId && work.startDate <= work.dueDate && ProjectKnown(projects, work.projectId)
      requires Trimmed(work.name) && WorksKeyed(works, ToUpper(work.name)) == {}
      modifies this
      ensures Valid()
      ensures works == old(works)[work.id := work] && nextId == old(nextId) + 1
      ensures WorksKeyed(works, ToUpper(work.name)) == {work.id}
      ensures tags == old(tags) && projects == old(projects) && projectTags == old(projectTags)
    {
      PutWorkName(works, work);
      works := Add(works, nextId, work);
      nextId := nextId + 1;
    }

    /** Replaces a stored work by one with the same id, dated in order, with a trimmed name no other work has. */
    method UpdateWork(work: Work)
      requires Valid()
      requires work.id in works && work.startDate <= work.dueDate && ProjectKnown(projects, work.projectId)
      requires Trimmed(work.name) && WorksKeyed(works, ToUpper(work.name)) <= {work.id}
      modifies this
      ensures Valid()
      ensures works == old(works)[work.id := work]
      ensures WorksKeyed(works, ToUpper(work.name)) == {work.id}
      ensures tags == old(tags) && projects == old(projects) && projectTags == old(projectTags) && nextId == old(nextId)
    {
      PutWorkName(works, work);
      works := Update(works, work.id, work);
    }

    /** Stores a project row with a trimmed name no project has, under the next identity; it owns no tag rows. */
    method AddProjectRow(project: ProjectRow)
      requires Valid()
      requires project.id == nextId && Trimmed(project.name) && ProjectsKeyed(projects, ToUpper(project.name)) == {}
      modifies this
      ensures Valid()
      ensures projects == old(projects)[project.id := project] && nextId == old(nextId) + 1
      ensures ProjectsKeyed(projects, ToUpper(project.name)) == {project.id}
      ensures RowsOf(projectTags, project.id) == {} && Targets(projectTags, project.id) == {}
      ensures tags == old(tags) && projectTags == old(projectTags) && works == old(works)
    {
      LinksOutside(projectTags, projects.Keys, tags.Keys, nextId, project.id);
      PutProjectName(projects, project);
      projects := Add(projects, nextId, project);
      nextId := nextId + 1;
    }

    /** Replaces a stored project row by one with the same id and a trimmed name no other project has. */
    method UpdateProjectRow(project: ProjectRow)
      requires Valid()
      requires project.id in projects && Trimmed(project.name) && ProjectsKeyed(projects, ToUpper(project.name)) <= {project.id}
      modifies this
      ensures Valid()
      ensures projects == old(projects)[project.id := project]
      ensures ProjectsKeyed(projects, ToUpper(project.name)) == {project.id}
      ensures tags == old(tags) && projectTags == old(projectTags) && works == old(works) && nextId == old(nextId)
    {
      PutProjectName(projects, project);
      projects := Update(projects, project.id, project);
    }

    /** One `ProjectTag` row per stored tag id, in order, under the next identities. */
    method AddProjectTags(projectId: int, tagIds: seq<int>)
      requires Valid()
      requires projectId in projects && Elements(tagIds) <= tags.Keys
      modifies this
      ensures Valid()
      ensures tags == old(tags) && projects == old(projects) && works == old(works)
      ensures projectTags == WithLinks(old(projectTags), projectId, tagIds, old(nextId))
      ensures nextId == old(nextId) + |tagIds|
    {
      var i := 0;
      while i < |tagIds|
        invariant 0 <= i <= |tagIds|
        invariant projectTags == WithLinks(old(projectTags), projectId, tagIds[..i], old(nextId))
        invariant nextId == old(nextId) + i
        invariant tags == old(tags) && projects == old(projects) && works == old(works)
      {
        assert tagIds[..i + 1][..i] == tagIds[..i];
        WithLinksShape(old(projectTags), projectId, tagIds[..i], old(nextId));
        projectTags := Add(projectTags, nextId, Link(projectId, tagIds[i]));
        nextId := nextId + 1;
        i := i + 1;
      }
      assert tagIds[..i] == tagIds;
      WithLinksWithin(old(projectTags), projectId, tagIds, old(nextId), projects.Keys, tags.Keys);
    }

    /** Deletes the given `ProjectTag` rows. */
    method RemoveProjectTags(rows: set<int>)
      requires Valid()
      requires rows <= projectTags.Keys
      modifies this
      ensures Valid()
      ensures tags == old(tags) && projects == old(projects) && works == old(works) && nextId == old(nextId)
      ensures projectTags == old(projectTags) - rows
    {
      var pending := rows;
      while exists k :: k in pending
        invariant pending <= rows
        invariant projectTags == old(projectTags) - (rows - pending)
        invariant tags == old(tags) && projects == old(projects) && works == old(works) && nextId == old(nextId)
        decreases |pending|
      {
        var k :| k in pending;
        var (_, rest) := Delete(projectTags, k);
        projectTags := rest;
        pending := pending - {k};
      }
    }

    /** Deletes a project that owns no `ProjectTag` rows and that no work names. */
    method RemoveProject(id: int)
      requires Valid()
      requires id in projects && RowsOf(projectTags, id) == {} && WorksOf(works, id) == {}
      modifies this
      ensures Valid()
      ensures projects == old(projects) - {id}
      ensures tags == old(tags) && projectTags == old(projectTags) && works == old(works) && nextId == old(nextId)
    {
      forall k | k in projectTags
        ensures projectTags[k].owner != id
      {
        assert k !in RowsOf(projectTags, id);
      }
      var (_, rest) := Delete(projects, id);
      projects := rest;
    }
  }
}
