/**
 * The works query: every stored work, ordered by due date (latest first),
 * then start date (latest first), then name (ascending), narrowed by each
 * filter the request supplies and projected to a response that carries the
 * work's project.
 */
module WorkQueryHandler {
  import opened Wrappers
  import opened Text
  import opened ProjectsDomain

  /** Every filter is optional; a null or blank name is no filter. */
  datatype WorkQueryRequest = WorkQueryRequest(
    name: Option<string>,
    projectId: Option<int>,
    startDateBegin: Option<int>,
    startDateEnd: Option<int>,
    dueDateBegin: Option<int>,
    dueDateEnd: Option<int>)

  datatype WorkQueryResponse = WorkQueryResponse(
    id: int,
    name: string,
    description: Option<string>,
    startDate: int,
    dueDate: int,
    projectId: Option<int>,
    projectName: Option<string>,
    project: Option<ProjectRow>)

  // ---------------------------------------------------------------------
  // Ordering
  // ---------------------------------------------------------------------

  /** Ordinal string comparison: `a` sorts no later than `b`. */
  predicate OrdinalLeq(a: string, b: string)
    decreases |a|
  {
    a == [] || (b != [] && (a[0] < b[0] || (a[0] == b[0] && OrdinalLeq(a[1..], b[1..]))))
  }

  lemma {:induction false} OrdinalLeqTotal(a: string, b: string)
    ensures OrdinalLeq(a, b) || OrdinalLeq(b, a)
    decreases |a|
  {
    if a != [] && b != [] && a[0] == b[0] {
      OrdinalLeqTotal(a[1..], b[1..]);
    }
  }

  lemma {:induction false} OrdinalLeqTrans(a: string, b: string, c: string)
    requires OrdinalLeq(a, b) && OrdinalLeq(b, c)
    ensures OrdinalLeq(a, c)
    decreases |a|
  {
    if a != [] && a[0] == b[0] && b[0] == c[0] {
      OrdinalLeqTrans(a[1..], b[1..], c[1..]);
    }
  }

  /** Two strings each ordinally no later than the other are equal. */
  lemma {:induction false} OrdinalLeqAntisymmetric(a: string, b: string)
    requires OrdinalLeq(a, b) && OrdinalLeq(b, a)
    ensures a == b
    decreases |a|
  {
    if a != [] {
      OrdinalLeqAntisymmetric(a[1..], b[1..]);
      assert a == [a[0]] + a[1..] && b == [b[0]] + b[1..];
    }
  }

  /** The three ordering keys of a work or a response. */
  datatype SortKey = SortKey(dueDate: int, startDate: int, name: string)

  function KeyOf(w: Work): SortKey {
    SortKey(w.dueDate, w.startDate, w.name)
  }

  function ResponseKey(r: WorkQueryResponse): SortKey {
    SortKey(r.dueDate, r.startDate, r.name)
  }

  /**
   * `OrderByDescending(DueDate).ThenByDescending(StartDate).ThenBy(Name)`:
   * a work with key `a` may come before one with key `b`.
   */
  predicate Before(a: SortKey, b: SortKey) {
    || a.dueDate > b.dueDate
    || (a.dueDate == b.dueDate && a.startDate > b.startDate)
    || (a.dueDate == b.dueDate && a.startDate == b.startDate && OrdinalLeq(a.name, b.name))
  }

  lemma BeforeTotal(a: SortKey, b: SortKey)
    ensures Before(a, b) || Before(b, a)
  {
    OrdinalLeqTotal(a.name, b.name);
  }

  lemma BeforeTrans(a: SortKey, b: SortKey, c: SortKey)
    requires Before(a, b) && Before(b, c)
    ensures Before(a, c)
  {
    if a.dueDate == b.dueDate == c.dueDate && a.startDate == b.startDate == c.startDate {
      OrdinalLeqTrans(a.name, b.name, c.name);
    }
  }

  /** Keys that precede each other both ways are the same key. */
  lemma BeforeAntisymmetric(a: SortKey, b: SortKey)
    requires Before(a, b) && Before(b, a)
    ensures a == b
  {
    OrdinalLeqAntisymmetric(a.name, b.name);
  }

  predicate Sorted(ws: seq<Work>) {
    forall i, j :: 0 <= i < j < |ws| ==> Before(KeyOf(ws[i]), KeyOf(ws[j]))
  }

  // ---------------------------------------------------------------------
  // Sorting
  // ---------------------------------------------------------------------

  /** Places `w` in front of the first work it may precede. */
  function Insert(w: Work, ws: seq<Work>): (r: seq<Work>)
    ensures |r| == |ws| + 1
    decreases |ws|
  {
    if ws == [] || Before(KeyOf(w), KeyOf(ws[0])) then [w] + ws
    else [ws[0]] + Insert(w, ws[1..])
  }

  /** The ordered works (an insertion sort; see `SortSorted`, `SortPermutation`). */
  function Sort(ws: seq<Work>): (r: seq<Work>)
    ensures |r| == |ws|
    decreases |ws|
  {
    if ws == [] then [] else Insert(ws[0], Sort(ws[1..]))
  }

  lemma {:induction false} InsertPermutation(w: Work, ws: seq<Work>)
    ensures multiset(Insert(w, ws)) == multiset(ws) + multiset{w}
    decreases |ws|
  {
    if ws != [] && !Before(KeyOf(w), KeyOf(ws[0])) {
      InsertPermutation(w, ws[1..]);
      assert ws == [ws[0]] + ws[1..];
    }
  }

  /** Every work of a sorted sequence comes no earlier than its head. */
  lemma HeadFirst(ws: seq<Work>, x: Work)
    requires Sorted(ws) && ws != [] && x in multiset(ws[1..])
    ensures Before(KeyOf(ws[0]), KeyOf(x))
  {
    assert x in ws[1..];
    var k :| 0 <= k < |ws[1..]| && ws[1..][k] == x;
    assert ws[k + 1] == x;
  }

  lemma {:induction false} InsertSorted(w: Work, ws: seq<Work>)
    requires Sorted(ws)
    ensures Sorted(Insert(w, ws))
    decreases |ws|
  {
    if ws == [] {
    } else if Before(KeyOf(w), KeyOf(ws[0])) {
      forall j | 0 < j < |ws|
        ensures Before(KeyOf(w), KeyOf(ws[j]))
      {
        BeforeTrans(KeyOf(w), KeyOf(ws[0]), KeyOf(ws[j]));
      }
    } else {
      var t := Insert(w, ws[1..]);
      InsertSorted(w, ws[1..]);
      InsertPermutation(w, ws[1..]);
      BeforeTotal(KeyOf(w), KeyOf(ws[0]));
      forall j | 0 <= j < |t|
        ensures Before(KeyOf(ws[0]), KeyOf(t[j]))
      {
        assert t[j] in multiset(t);
        if t[j] != w {
          HeadFirst(ws, t[j]);
        }
      }
      assert Insert(w, ws) == [ws[0]] + t;
    }
  }

  /** The sort orders the works as the query promises... */
  lemma {:induction false} SortSorted(ws: seq<Work>)
    ensures Sorted(Sort(ws))
    decreases |ws|
  {
    if ws != [] {
      SortSorted(ws[1..]);
      InsertSorted(ws[0], Sort(ws[1..]));
    }
  }

  /** ...and neither drops nor duplicates a work. */
  lemma {:induction false} SortPermutation(ws: seq<Work>)
    ensures multiset(Sort(ws)) == multiset(ws)
    decreases |ws|
  {
    if ws != [] {
      SortPermutation(ws[1..]);
      InsertPermutation(ws[0], Sort(ws[1..]));
      assert ws == [ws[0]] + ws[1..];
    }
  }

  // ---------------------------------------------------------------------
  // Filtering
  // ---------------------------------------------------------------------

  /** One `Where` the handler may add to the query. */
  datatype Clause =
    | NameIs(name: string)
    | ProjectIs(projectId: int)
    | StartFrom(bound: int)
    | StartUntil(bound: int)
    | DueFrom(bound: int)
    | DueUntil(bound: int)

  predicate Holds(c: Clause, w: Work) {
    match c
    case NameIs(name) => w.name == name
    case ProjectIs(projectId) => w.projectId == Some(projectId)
    case StartFrom(bound) => w.startDate >= bound
    case StartUntil(bound) => w.startDate <= bound
    case DueFrom(bound) => w.dueDate >= bound
    case DueUntil(bound) => w.dueDate <= bound
  }

  /** The clauses the request switches on, in the order the handler adds them. */
  function Clauses(request: WorkQueryRequest): seq<Clause> {
    (if !IsNullOrWhiteSpace(request.name) then [NameIs(request.name.value)] else [])
    + (if request.projectId.Some? then [ProjectIs(request.projectId.value)] else [])
    + (if request.startDateBegin.Some? then [StartFrom(request.startDateBegin.value)] else [])
    + (if request.startDateEnd.Some? then [StartUntil(request.startDateEnd.value)] else [])
    + (if request.dueDateBegin.Some? then [DueFrom(request.dueDateBegin.value)] else [])
    + (if request.dueDateEnd.Some? then [DueUntil(request.dueDateEnd.value)] else [])
  }

  /** `Where`: the works satisfying `c`, in their order. */
  function Where(ws: seq<Work>, c: Clause): (r: seq<Work>)
    ensures |r| <= |ws|
    decreases |ws|
  {
    if ws == [] then []
    else (if Holds(c, ws[0]) then [ws[0]] else []) + Where(ws[1..], c)
  }

  /** The clauses applied one after another. */
  function WhereAll(ws: seq<Work>, cs: seq<Clause>): (r: seq<Work>)
    ensures |r| <= |ws|
    decreases |cs|
  {
    if cs == [] then ws else WhereAll(Where(ws, cs[0]), cs[1..])
  }

  /**
   * What the request asks for, filter by filter: a blank name is ignored,
   * otherwise the name must be equal; a given project id must be the work's;
   * every date bound is inclusive.
   */
  predicate Matches(w: Work, request: WorkQueryRequest) {
    && (IsNullOrWhiteSpace(request.name) || w.name == request.name.value)
    && (request.projectId.None? || w.projectId == request.projectId)
    && (request.startDateBegin.None? || w.startDate >= request.startDateBegin.value)
    && (request.startDateEnd.None? || w.startDate <= request.startDateEnd.value)
    && (request.dueDateBegin.None? || w.dueDate >= request.dueDateBegin.value)
    && (request.dueDateEnd.None? || w.dueDate <= request.dueDateEnd.value)
  }

  /** A request with no filter at all. */
  predicate Unfiltered(request: WorkQueryRequest) {
    && IsNullOrWhiteSpace(request.name) && request.projectId.None?
    && request.startDateBegin.None? && request.startDateEnd.None?
    && request.dueDateBegin.None? && request.dueDateEnd.None?
  }

  /** `w` satisfies every clause of `cs`. */
  predicate AllHold(cs: seq<Clause>, w: Work) {
    forall c :: c in cs ==> Holds(c, w)
  }

  /** Each clause the request switches on states one of its filters. */
  lemma ClausesMatch(w: Work, request: WorkQueryRequest, c: Clause)
    requires Matches(w, request) && c in Clauses(request)
    ensures Holds(c, w)
  {
  }

  /** A work matches the request exactly when it satisfies every clause it switches on. */
  lemma MatchesClauses(w: Work, request: WorkQueryRequest)
    ensures Matches(w, request) <==> AllHold(Clauses(request), w)
  {
    var cs := Clauses(request);
    if Matches(w, request) {
      forall c | c in cs
        ensures Holds(c, w)
      {
        ClausesMatch(w, request, c);
      }
    } else {
      if !IsNullOrWhiteSpace(request.name) { assert NameIs(request.name.value) in cs; }
      if request.projectId.Some? { assert ProjectIs(request.projectId.value) in cs; }
      if request.startDateBegin.Some? { assert StartFrom(request.startDateBegin.value) in cs; }
      if request.startDateEnd.Some? { assert StartUntil(request.startDateEnd.value) in cs; }
      if request.dueDateBegin.Some? { assert DueFrom(request.dueDateBegin.value) in cs; }
      if request.dueDateEnd.Some? { assert DueUntil(request.dueDateEnd.value) in cs; }
    }
  }

  /** An unfiltered request switches on no clause. */
  lemma UnfilteredClauses(request: WorkQueryRequest)
    ensures Unfiltered(request) <==> Clauses(request) == []
  {
  }

  /** `Where` keeps each satisfying work as often as it occurs, and no other. */
  lemma {:induction false} WhereCount(ws: seq<Work>, c: Clause)
    ensures forall x :: multiset(Where(ws, c))[x] == if Holds(c, x) then multiset(ws)[x] else 0
    decreases |ws|
  {
    if ws != [] {
      WhereCount(ws[1..], c);
      assert ws == [ws[0]] + ws[1..];
    }
  }

  lemma TailSorted(ws: seq<Work>)
    requires Sorted(ws) && ws != []
    ensures Sorted(ws[1..])
  {
    forall i, j | 0 <= i < j < |ws| - 1
      ensures Before(KeyOf(ws[1..][i]), KeyOf(ws[1..][j]))
    {
      assert ws[1..][i] == ws[i + 1] && ws[1..][j] == ws[j + 1];
    }
  }

  /** A work that may precede every work of a sorted sequence may head it. */
  lemma ConsSorted(w: Work, ws: seq<Work>)
    requires Sorted(ws)
    requires forall x :: x in multiset(ws) ==> Before(KeyOf(w), KeyOf(x))
    ensures Sorted([w] + ws)
  {
    forall j | 0 <= j < |ws|
      ensures Before(KeyOf(w), KeyOf(ws[j]))
    {
      assert ws[j] in multiset(ws);
    }
  }

  /** `Where` keeps the order of what it keeps. */
  lemma {:induction false} WhereSorted(ws: seq<Work>, c: Clause)
    requires Sorted(ws)
    ensures Sorted(Where(ws, c))
    decreases |ws|
  {
    if ws != [] {
      var t := Where(ws[1..], c);
      TailSorted(ws);
      WhereSorted(ws[1..], c);
      if Holds(c, ws[0]) {
        WhereCount(ws[1..], c);
        forall x | x in multiset(t)
          ensures Before(KeyOf(ws[0]), KeyOf(x))
        {
          HeadFirst(ws, x);
        }
        ConsSorted(ws[0], t);
        assert Where(ws, c) == [ws[0]] + t;
      } else {
        assert Where(ws, c) == t;
      }
    }
  }

  lemma {:induction false} WhereAllCount(ws: seq<Work>, cs: seq<Clause>)
    ensures forall x :: multiset(WhereAll(ws, cs))[x] ==
                        if AllHold(cs, x) then multiset(ws)[x] else 0
    decreases |cs|
  {
    if cs != [] {
      WhereCount(ws, cs[0]);
      WhereAllCount(Where(ws, cs[0]), cs[1..]);
      forall x
        ensures AllHold(cs, x) <==> Holds(cs[0], x) && AllHold(cs[1..], x)
      {
        assert cs == [cs[0]] + cs[1..];
      }
    }
  }

  lemma {:induction false} WhereAllSorted(ws: seq<Work>, cs: seq<Clause>)
    requires Sorted(ws)
    ensures Sorted(WhereAll(ws, cs))
    decreases |cs|
  {
    if cs != [] {
      WhereSorted(ws, cs[0]);
      WhereAllSorted(Where(ws, cs[0]), cs[1..]);
    }
  }

  // ---------------------------------------------------------------------
  // Projection and the query
  // ---------------------------------------------------------------------

  /** The work's project, when it names one that is stored (`Include(w => w.Project)`). */
  function ProjectOf(w: Work, projects: map<int, ProjectRow>): Option<ProjectRow> {
    if w.projectId.Some? && w.projectId.value in projects then Some(projects[w.projectId.value]) else None
  }

  /** The response built from one work. */
  function Respond(w: Work, projects: map<int, ProjectRow>): (r: WorkQueryResponse)
    ensures r.id == w.id && r.name == w.name && r.description == w.description
    ensures r.startDate == w.startDate && r.dueDate == w.dueDate && r.projectId == w.projectId
    ensures ResponseKey(r) == KeyOf(w)
    ensures r.project.Some? <==> w.projectId.Some? && w.projectId.value in projects
    ensures r.project.Some? ==>
              && r.project.value == projects[w.projectId.value]
              && r.projectName == Some(r.project.value.name)
    ensures r.project.None? ==> r.projectName.None?
  {
    var project := ProjectOf(w, projects);
    WorkQueryResponse(w.id, w.name, w.description, w.startDate, w.dueDate, w.projectId,
                      if project.Some? then Some(project.value.name) else None, project)
  }

  /** The works the query returns, in the order it returns them. */
  function Selected(works: seq<Work>, request: WorkQueryRequest): seq<Work> {
    WhereAll(Sort(works), Clauses(request))
  }

  /** `Handle`: order, filter, then project every remaining work. */
  function Handle(works: seq<Work>, projects: map<int, ProjectRow>, request: WorkQueryRequest): (r: seq<WorkQueryResponse>)
    ensures |r| == |Selected(works, request)|
  {
    var selected := Selected(works, request);
    seq(|selected|, i requires 0 <= i < |selected| => Respond(selected[i], projects))
  }

  /**
   * The query returns every work that matches the request, as often as it is
   * stored, and no other; in the promised order.
   */
  lemma SelectedSpec(works: seq<Work>, request: WorkQueryRequest)
    ensures Sorted(Selected(works, request))
    ensures forall w :: multiset(Selected(works, request))[w] ==
                        if Matches(w, request) then multiset(works)[w] else 0
  {
    SortSorted(works);
    SortPermutation(works);
    WhereAllSorted(Sort(works), Clauses(request));
    WhereAllCount(Sort(works), Clauses(request));
    forall w
      ensures multiset(Selected(works, request))[w] == if Matches(w, request) then multiset(works)[w] else 0
    {
      MatchesClauses(w, request);
    }
  }

  /** With no filter set every work is returned, in order. */
  lemma UnfilteredAll(works: seq<Work>, request: WorkQueryRequest)
    requires Unfiltered(request)
    ensures Selected(works, request) == Sort(works)
    ensures multiset(Selected(works, request)) == multiset(works)
  {
    UnfilteredClauses(request);
    SortPermutation(works);
  }

  /** The responses come in the order of the works they are built from. */
  lemma HandleOrdered(works: seq<Work>, projects: map<int, ProjectRow>, request: WorkQueryRequest)
    ensures var r := Handle(works, projects, request);
            forall i, j :: 0 <= i < j < |r| ==> Before(ResponseKey(r[i]), ResponseKey(r[j]))
  {
    var s := Selected(works, request);
    var r := Handle(works, projects, request);
    SelectedSpec(works, request);
    forall i, j | 0 <= i < j < |r|
      ensures Before(ResponseKey(r[i]), ResponseKey(r[j]))
    {
      assert r[i] == Respond(s[i], projects) && r[j] == Respond(s[j], projects);
    }
  }

  /** A response appears exactly when some stored work that matches the request projects to it. */
  lemma HandleMembers(works: seq<Work>, projects: map<int, ProjectRow>, request: WorkQueryRequest)
    ensures var r := Handle(works, projects, request);
            forall x :: x in r <==> exists w :: w in works && Matches(w, request) && x == Respond(w, projects)
  {
    var s := Selected(works, request);
    var r := Handle(works, projects, request);
    SelectedSpec(works, request);
    forall x | x in r
      ensures exists w :: w in works && Matches(w, request) && x == Respond(w, projects)
    {
      var i :| 0 <= i < |r| && r[i] == x;
      var w := s[i];
      assert w in multiset(s);
      assert multiset(s)[w] == if Matches(w, request) then multiset(works)[w] else 0;
      assert w in multiset(works);
      assert w in works && Matches(w, request) && x == Respond(w, projects);
    }
    forall w | w in works && Matches(w, request)
      ensures Respond(w, projects) in r
    {
      assert w in multiset(works);
      assert multiset(s)[w] == multiset(works)[w];
      assert w in s;
      var i :| 0 <= i < |s| && s[i] == w;
      assert r[i] == Respond(w, projects);
    }
  }
}
