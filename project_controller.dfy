/**
 * app/Http/Controllers/Api/ProjectController.php: the figures every project
 * response reports (progress recomputed from the tasks, `is_overdue`, the
 * task counts) and the `store`, `show`, `update` and `destroy` endpoints.
 */
module ProjectController {
  import opened Common
  import opened PhpMath
  import opened ProjectModel

  const ProjectStatuses: seq<string> := ["Planning", "In Progress", "Completed", "On Hold"]

  function ProjectStatusOf(s: string): (st: ProjectStatus)
    requires s in ProjectStatuses
    ensures st.Name() == s
  {
    if s == "Planning" then ProjectStatus.Planning
    else if s == "In Progress" then ProjectStatus.InProgress
    else if s == "Completed" then ProjectStatus.Completed
    else ProjectStatus.OnHold
  }

  /** A sent status replaces the stored one; an absent or null one leaves `current`. */
  function ProjectStatusOr(f: Field<string>, current: ProjectStatus): (r: ProjectStatus)
    requires f.Given? ==> f.value in ProjectStatuses
    ensures f.Given? ==> r.Name() == f.value
    ensures !f.Given? ==> r == current
  {
    if f.Given? then ProjectStatusOf(f.value) else current
  }

  /** Seconds in a day; `now` is in seconds, dates are day numbers counted from the same origin. */
  const SecondsPerDay: int := 86400

  /**
   * `is_overdue`: a due date exists, it is past (`due_date` is cast to a
   * date, so it stands for midnight at its start), and the project is not
   * `Completed`.
   */
  predicate IsOverdue(p: Project, now: int)
  {
    p.dueDate.Some? && p.dueDate.value * SecondsPerDay < now && p.status != ProjectStatus.Completed
  }

  /** A project still open is already overdue during its due day, once midnight has passed. */
  lemma OverdueOnItsDueDay(p: Project, now: int)
    requires p.dueDate.Some? && p.status != ProjectStatus.Completed
    requires p.dueDate.value * SecondsPerDay < now < (p.dueDate.value + 1) * SecondsPerDay
    ensures IsOverdue(p, now)
  {
  }

  /** A completed project, or one without a due date, is never overdue. */
  lemma NeverOverdue(p: Project, now: int)
    requires p.status == ProjectStatus.Completed || p.dueDate.None?
    ensures !IsOverdue(p, now)
  {
  }

  /** The computed part of a `show` or `store` response: the row, its progress and its task counts. */
  datatype ProjectFigures = ProjectFigures(project: Project, progress: int, tasks: TaskStats)

  /**
   * The figures `show` and `store` report for a project: the progress is
   * recomputed from the tasks and the stored one is ignored.
   */
  function Figures(p: Project, tasks: seq<Task>): (f: ProjectFigures)
    ensures f.project == p
    ensures f.progress == ComputedProgress(tasks, p.id) && 0 <= f.progress <= 100
    ensures f.tasks == GetTaskStats(tasks, p.id)
    ensures f.tasks.total == 0 ==> f.progress == 0
  {
    ProjectFigures(p, ComputedProgress(tasks, p.id), GetTaskStats(tasks, p.id))
  }

  /** One project of an `index` response: the same figures plus `is_overdue`, which only `index` reports. */
  datatype ProjectSummary = ProjectSummary(figures: ProjectFigures, isOverdue: bool)

  function Summary(p: Project, tasks: seq<Task>, now: int): (s: ProjectSummary)
    ensures s.figures.project == p
    ensures s.figures.progress == ComputedProgress(tasks, p.id) && 0 <= s.figures.progress <= 100
    ensures s.isOverdue <==> IsOverdue(p, now)
    ensures s.figures.tasks == GetTaskStats(tasks, p.id)
    ensures s.figures.tasks.total == 0 ==> s.figures.progress == 0
  {
    ProjectSummary(Figures(p, tasks), IsOverdue(p, now))
  }

  /** Two rows that differ only in their stored progress report the same progress. */
  lemma SummaryIgnoresStoredProgress(p: Project, stored: int, tasks: seq<Task>, now: int)
    ensures Summary(p.(progress := stored), tasks, now).figures.progress == Summary(p, tasks, now).figures.progress
  {
  }

  /** `show`: 404 (`None`) for an unknown id, otherwise the project's figures. */
  function Show(projects: seq<Project>, tasks: seq<Task>, id: nat): (r: Option<ProjectFigures>)
    ensures r.None? <==> id !in ProjectIds(projects)
    ensures r.Some? ==> r.value.project.id == id && r.value.project in projects
    ensures r.Some? ==> r.value.progress == ComputedProgress(tasks, id)
    ensures r.Some? ==> r.value.tasks == GetTaskStats(tasks, id)
  {
    match FindProject(projects, id)
    case None => None
    case Some(i) => Some(Figures(projects[i], tasks))
  }

  /** The body of a store request. */
  datatype ProjectInput = ProjectInput(
    name: Field<string>,
    description: Field<string>,
    status: Field<string>,
    priority: Field<string>,
    dueDate: Field<int>,
    progress: Field<int>)

  /** The rules of `store`; a due date may not lie before `today`. */
  predicate ProjectInputValid(r: ProjectInput, today: int)
  {
    && RequiredText(r.name, 255)
    && OptionalText(r.description, 1000)
    && OptionalIn(r.status, ProjectStatuses)
    && OptionalIn(r.priority, Priorities)
    && (r.dueDate.Absent? || r.dueDate.Null? || (r.dueDate.Given? && r.dueDate.value >= today))
    && OptionalPercent(r.progress)
  }

  /**
   * The row `store` inserts: the name trimmed, an unsent or null
   * description as the empty string, status `Planning`, priority `Medium`,
   * progress 0 and no due date when not sent. A sent progress is stored as sent.
   */
  function ProjectRow(r: ProjectInput, today: int): (p: Project)
    requires ProjectInputValid(r, today)
    ensures p.name == Trim(r.name.value)
    ensures p.description == Some(if r.description.Given? then r.description.value else "")
    ensures r.status.Given? ==> p.status.Name() == r.status.value
    ensures !r.status.Given? ==> p.status == ProjectStatus.Planning
    ensures r.priority.Given? ==> p.priority.Name() == r.priority.value
    ensures !r.priority.Given? ==> p.priority == Medium
    ensures p.progress == (if r.progress.Given? then r.progress.value else 0) && 0 <= p.progress <= 100
    ensures p.dueDate == (if r.dueDate.Given? then Some(r.dueDate.value) else None)
    ensures p.dueDate.Some? ==> p.dueDate.value >= today
  {
    Project(0, Trim(r.name.value), Some(r.description.OrElse("")),
      ProjectStatusOr(r.status, ProjectStatus.Planning),
      PriorityOr(r.priority, Medium),
      r.progress.OrElse(0),
      if r.dueDate.Given? then Some(r.dueDate.value) else None)
  }

  /** A fresh id has no tasks yet, since every task belongs to an existing project. */
  lemma FreshProjectHasNoTasks(tasks: seq<Task>, projects: seq<Project>, nextId: nat)
    requires TasksOwned(tasks, projects) && ProjectIdsOrdered(projects, nextId)
    ensures TasksOf(tasks, nextId) == []
  {
    var own := TasksOf(tasks, nextId);
    if |own| > 0 {
      assert own[0] in tasks;
    }
  }

  /**
   * `store`: a request breaking a rule gives 422 with no change; otherwise
   * the project is inserted and 201 returned with its figures. A new
   * project has no tasks, so the reported progress is 0 whatever progress
   * was stored.
   */
  method Store(w: Workspace, r: ProjectInput, today: int)
    returns (code: int, created: Option<ProjectFigures>)
    requires w.Valid()
    modifies w
    ensures w.Valid() && w.tasks == old(w.tasks)
    ensures !ProjectInputValid(r, today) ==>
      code == 422 && created.None? && w.projects == old(w.projects) && w.nextProjectId == old(w.nextProjectId)
    ensures ProjectInputValid(r, today) ==>
      var p := ProjectRow(r, today).(id := old(w.nextProjectId));
      && code == 201
      && w.projects == old(w.projects) + [p]
      && created == Some(Figures(p, w.tasks))
      && created.value.progress == 0
  {
    if !ProjectInputValid(r, today) {
      return 422, None;
    }
    FreshProjectHasNoTasks(w.tasks, w.projects, w.nextProjectId);
    var p := w.InsertProject(ProjectRow(r, today));
    code, created := 201, Some(Figures(p, w.tasks));
  }

  /** The body of an update request. */
  datatype ProjectPatch = ProjectPatch(
    name: Field<string>,
    description: Field<string>,
    status: Field<string>,
    priority: Field<string>,
    dueDate: Field<int>,
    progress: Field<int>)

  /** The rules of `update`; unlike `store`, a past due date is accepted. */
  predicate ProjectPatchValid(q: ProjectPatch)
  {
    && SometimesText(q.name, 255)
    && OptionalText(q.description, 1000)
    && SometimesIn(q.status, ProjectStatuses)
    && SometimesIn(q.priority, Priorities)
    && !q.dueDate.Malformed?
    && SometimesPercent(q.progress)
  }

  /** `$project->update($validator->validated())`: each key sent overwrites its column. */
  function PatchedProject(p: Project, q: ProjectPatch): (r: Project)
    requires ProjectPatchValid(q)
    ensures r.id == p.id
    ensures q.name.Given? ==> r.name == q.name.value
    ensures !q.name.Given? ==> r.name == p.name
    ensures q.description.Absent? ==> r.description == p.description
    ensures q.description.Null? ==> r.description.None?
    ensures q.description.Given? ==> r.description == Some(q.description.value)
    ensures q.status.Given? ==> r.status.Name() == q.status.value
    ensures !q.status.Given? ==> r.status == p.status
    ensures q.priority.Given? ==> r.priority.Name() == q.priority.value
    ensures !q.priority.Given? ==> r.priority == p.priority
    ensures q.dueDate.Absent? ==> r.dueDate == p.dueDate
    ensures q.dueDate.Null? ==> r.dueDate.None?
    ensures q.dueDate.Given? ==> r.dueDate == Some(q.dueDate.value)
    ensures q.progress.Given? ==> r.progress == q.progress.value && 0 <= r.progress <= 100
    ensures !q.progress.Given? ==> r.progress == p.progress
    ensures q == ProjectPatch(Absent, Absent, Absent, Absent, Absent, Absent) ==> r == p
  {
    Project(p.id,
      q.name.OrElse(p.name),
      q.description.OverNullable(p.description),
      ProjectStatusOr(q.status, p.status),
      PriorityOr(q.priority, p.priority),
      q.progress.OrElse(p.progress),
      q.dueDate.OverNullable(p.dueDate))
  }

  /**
   * After an update the stored progress is the one computed from the tasks,
   * whatever progress was sent, while a sent status is kept as sent.
   */
  lemma UpdateOverridesProgressKeepsStatus(p: Project, q: ProjectPatch, tasks: seq<Task>)
    requires ProjectPatchValid(q)
    ensures WithProgress(PatchedProject(p, q), tasks).progress == ComputedProgress(tasks, p.id)
    ensures q.status.Given? ==> WithProgress(PatchedProject(p, q), tasks).status.Name() == q.status.value
    ensures q.status.Absent? ==> WithProgress(PatchedProject(p, q), tasks).status == p.status
  {
  }

  /**
   * `update`: an unknown id gives 404 and a broken rule 422, with no change;
   * otherwise the row is patched, `updateProgress()` overwrites its
   * progress, and 200 is returned.
   */
  method Update(w: Workspace, id: nat, q: ProjectPatch) returns (code: int)
    requires w.Valid()
    modifies w
    ensures w.Valid() && w.tasks == old(w.tasks)
    ensures id !in old(ProjectIds(w.projects)) ==> code == 404 && w.projects == old(w.projects)
    ensures id in old(ProjectIds(w.projects)) && !ProjectPatchValid(q) ==>
      code == 422 && w.projects == old(w.projects)
    ensures id in old(ProjectIds(w.projects)) && ProjectPatchValid(q) ==>
      var i := FindProject(old(w.projects), id).value;
      code == 200 && w.projects == old(w.projects)[i := WithProgress(PatchedProject(old(w.projects)[i], q), w.tasks)]
  {
    match FindProject(w.projects, id)
    case None =>
      return 404;
    case Some(i) =>
      if !ProjectPatchValid(q) {
        return 422;
      }
      w.ReplaceProject(i, PatchedProject(w.projects[i], q));
      w.UpdateProgress(i);
      code := 200;
  }

  /**
   * `destroy`: an unknown id gives 404 with no change; otherwise the project
   * and, through the cascading foreign key, all its tasks are deleted.
   */
  method Destroy(w: Workspace, id: nat) returns (code: int)
    requires w.Valid()
    modifies w
    ensures w.Valid()
    ensures id !in old(ProjectIds(w.projects)) ==>
      code == 404 && w.projects == old(w.projects) && w.tasks == old(w.tasks)
    ensures id in old(ProjectIds(w.projects)) ==>
      var i := FindProject(old(w.projects), id).value;
      && code == 200
      && w.projects == old(w.projects)[..i] + old(w.projects)[i + 1..]
      && w.tasks == WithoutProject(old(w.tasks), id)
      && TasksOf(w.tasks, id) == []
  {
    match FindProject(w.projects, id)
    case None =>
      return 404;
    case Some(i) =>
      w.DeleteProject(i);
      NoTasksLeft(old(w.tasks), id);
      code := 200;
  }
}
