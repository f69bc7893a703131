/**
 * The state-changing endpoints of app/Http/Controllers/Api/TaskController.php:
 * `store`, `update` and `destroy`, each followed by `updateProjectProgress`,
 * which recomputes the progress of the task's project and derives its status.
 */
module TaskController {
  import opened Common
  import opened PhpMath
  import opened ProjectModel

  const TaskStatuses: seq<string> := ["Todo", "In Progress", "Completed"]

  function TaskStatusOf(s: string): (st: TaskStatus)
    requires s in TaskStatuses
    ensures st.Name() == s
  {
    if s == "Todo" then TaskStatus.Todo
    else if s == "In Progress" then TaskStatus.InProgress
    else TaskStatus.Completed
  }

  /** A sent status replaces the stored one; an absent or null one leaves `current`. */
  function TaskStatusOr(f: Field<string>, current: TaskStatus): (r: TaskStatus)
    requires f.Given? ==> f.value in TaskStatuses
    ensures f.Given? ==> r.Name() == f.value
    ensures !f.Given? ==> r == current
  {
    if f.Given? then TaskStatusOf(f.value) else current
  }

  /**
   * The project status `updateProjectProgress` derives, as the code is
   * written: `round()` returns a float, and a float is never `===` to the
   * integers 100 or 0, so only the `In Progress` branch can fire.
   */
  function StatusAfterRecountAsWritten(progress: int, current: ProjectStatus): (s: ProjectStatus)
    ensures 0 < progress < 100 ==> s == ProjectStatus.InProgress
    ensures !(0 < progress < 100) ==> s == current
  {
    if 0 < progress < 100 then ProjectStatus.InProgress else current
  }

  /** As written, a project whose every task is done stays `Planning` at 100 percent. */
  lemma FinishedProjectStaysPlanningAsWritten()
    ensures StatusAfterRecountAsWritten(100, ProjectStatus.Planning) == ProjectStatus.Planning
    ensures StatusAfterRecount(100) == ProjectStatus.Completed
  {
  }

  /**
   * The mapping the branches evidently intend: 100 is `Completed`, 0 is
   * `Planning`, anything between is `In Progress`; `On Hold` is never produced.
   */
  function StatusAfterRecount(progress: int): (s: ProjectStatus)
    requires 0 <= progress <= 100
    ensures s == ProjectStatus.Completed <==> progress == 100
    ensures s == ProjectStatus.Planning <==> progress == 0
    ensures s == ProjectStatus.InProgress <==> 0 < progress < 100
    ensures s != ProjectStatus.OnHold
  {
    if progress == 100 then ProjectStatus.Completed
    else if 0 < progress < 100 then ProjectStatus.InProgress
    else ProjectStatus.Planning
  }

  /**
   * The row `updateProjectProgress` writes: without tasks only the progress
   * is reset to 0 and the status is kept (the function returns early);
   * otherwise progress and status both follow the task counts.
   */
  function Recount(p: Project, tasks: seq<Task>): (r: Project)
    ensures r == p.(progress := r.progress, status := r.status)
    ensures r.progress == ComputedProgress(tasks, p.id)
    ensures |TasksOf(tasks, p.id)| == 0 ==> r.status == p.status && r.progress == 0
    ensures |TasksOf(tasks, p.id)| > 0 ==> r.status == StatusAfterRecount(r.progress)
  {
    if |TasksOf(tasks, p.id)| == 0 then p.(progress := 0)
    else
      var progress := ComputedProgress(tasks, p.id);
      p.(progress := progress, status := StatusAfterRecount(progress))
  }

  /** Recounting twice over the same tasks gives the same row as recounting once. */
  lemma RecountIdempotent(p: Project, tasks: seq<Task>)
    ensures Recount(Recount(p, tasks), tasks) == Recount(p, tasks)
  {
  }

  /** A project whose tasks are all completed ends up `Completed` at 100. */
  lemma AllTasksDoneCompletesProject(p: Project, tasks: seq<Task>)
    requires |TasksOf(tasks, p.id)| > 0
    requires forall t :: t in tasks && t.projectId == p.id ==> t.status == TaskStatus.Completed
    ensures Recount(p, tasks).progress == 100 && Recount(p, tasks).status == ProjectStatus.Completed
  {
  }

  /** Below 200 tasks, a project reads `Completed` exactly when it has tasks and all are done. */
  lemma CompletedIffAllTasksDone(p: Project, tasks: seq<Task>)
    requires 0 < |TasksOf(tasks, p.id)| < 200
    ensures Recount(p, tasks).status == ProjectStatus.Completed <==>
      forall t :: t in tasks && t.projectId == p.id ==> t.status == TaskStatus.Completed
  {
    FullProgressIffAllCompleted(tasks, p.id);
  }

  /** One completed task out of four is 25 percent and `In Progress`. */
  lemma QuarterDoneExample(p: Project)
    ensures var t := Task(0, p.id, "t", None, None, TaskStatus.Todo, Medium, None, 0, None);
      var tasks := [t.(status := TaskStatus.Completed), t, t, t];
      Recount(p, tasks).progress == 25 && Recount(p, tasks).status == ProjectStatus.InProgress
  {
    var t := Task(0, p.id, "t", None, None, TaskStatus.Todo, Medium, None, 0, None);
    OneOfFourCompleted(t, p.id);
    assert Percent(1, 4) == 25 by {
      PercentIntegerForm(1, 4);
    }
  }

  lemma OneOfFourCompleted(t: Task, projectId: nat)
    requires t.projectId == projectId && t.status == TaskStatus.Todo
    ensures var tasks := [t.(status := TaskStatus.Completed), t, t, t];
      TasksOf(tasks, projectId) == tasks && CountStatus(tasks, TaskStatus.Completed) == 1
  {
    var tasks := [t.(status := TaskStatus.Completed), t, t, t];
    TasksOfOwnList(tasks, projectId);
    assert tasks[1..] == [t, t, t];
    assert CountStatus(tasks[1..], TaskStatus.Completed) == 0;
  }

  /**
   * `updateProjectProgress($projectId)`: an unknown project id changes
   * nothing; otherwise only that project's progress and status change.
   */
  method UpdateProjectProgress(w: Workspace, projectId: nat)
    requires w.Valid()
    modifies w
    ensures w.Valid()
    ensures w.tasks == old(w.tasks)
    ensures w.nextProjectId == old(w.nextProjectId) && w.nextTaskId == old(w.nextTaskId)
    ensures FindProject(old(w.projects), projectId).None? ==> w.projects == old(w.projects)
    ensures FindProject(old(w.projects), projectId).Some? ==>
      var i := FindProject(old(w.projects), projectId).value;
      w.projects == old(w.projects)[i := Recount(old(w.projects)[i], old(w.tasks))]
  {
    match FindProject(w.projects, projectId)
    case None =>
      return;
    case Some(i) =>
      w.ReplaceProject(i, Recount(w.projects[i], w.tasks));
  }

  /** One item of a `todo_list`. */
  datatype TodoItem = TodoItem(text: Field<string>, checked: Field<bool>)

  /** `todo_list` is a nullable array whose items need a text of at most 255 characters and a boolean. */
  predicate TodoListValid(f: Field<seq<TodoItem>>)
  {
    && !f.Malformed?
    && (f.Given? ==> forall i :: 0 <= i < |f.value| ==>
          RequiredText(f.value[i].text, 255) && f.value[i].checked.Given?)
  }

  /** `tags` is a nullable array of strings of at most 50 characters. */
  predicate TagsValid(f: Field<seq<string>>)
  {
    !f.Malformed? && (f.Given? ==> forall i :: 0 <= i < |f.value| ==> |f.value[i]| <= 50)
  }

  /** The body of a store request. */
  datatype TaskInput = TaskInput(
    title: Field<string>,
    description: Field<string>,
    projectId: Field<nat>,
    assigneeId: Field<nat>,
    status: Field<string>,
    priority: Field<string>,
    dueDate: Field<int>,
    progress: Field<int>,
    tags: Field<seq<string>>,
    todoList: Field<seq<TodoItem>>)

  /** The rules of `store`; `projectIds` and `userIds` are the ids in `projects` and `users`. */
  predicate TaskInputValid(r: TaskInput, projectIds: set<nat>, userIds: set<nat>)
  {
    && RequiredText(r.title, 255)
    && OptionalText(r.description, 1000)
    && r.projectId.Given? && r.projectId.value in projectIds
    && OptionalRef(r.assigneeId, userIds)
    && OptionalIn(r.status, TaskStatuses)
    && OptionalIn(r.priority, Priorities)
    && !r.dueDate.Malformed?
    && OptionalPercent(r.progress)
    && TagsValid(r.tags)
    && TodoListValid(r.todoList)
  }

  /**
   * The row `store` inserts: the title trimmed, an unsent or null
   * description stored as the empty string, status `Todo`, priority
   * `Medium`, progress 0 and tags `[]` when not sent. The todo list is
   * validated and then dropped. The id is assigned on insert.
   */
  function TaskRow(r: TaskInput, projectIds: set<nat>, userIds: set<nat>): (t: Task)
    requires TaskInputValid(r, projectIds, userIds)
    ensures t.projectId == r.projectId.value && t.projectId in projectIds
    ensures t.title == Trim(r.title.value)
    ensures t.description == Some(if r.description.Given? then r.description.value else "")
    ensures t.assigneeId == (if r.assigneeId.Given? then Some(r.assigneeId.value) else None)
    ensures t.assigneeId.Some? ==> t.assigneeId.value in userIds
    ensures r.status.Given? ==> t.status.Name() == r.status.value
    ensures !r.status.Given? ==> t.status == TaskStatus.Todo
    ensures r.priority.Given? ==> t.priority.Name() == r.priority.value
    ensures !r.priority.Given? ==> t.priority == Medium
    ensures t.dueDate == (if r.dueDate.Given? then Some(r.dueDate.value) else None)
    ensures t.progress == (if r.progress.Given? then r.progress.value else 0) && 0 <= t.progress <= 100
    ensures t.tags == Some(if r.tags.Given? then r.tags.value else [])
  {
    Task(0, r.projectId.value, Trim(r.title.value), Some(r.description.OrElse("")),
      if r.assigneeId.Given? then Some(r.assigneeId.value) else None,
      TaskStatusOr(r.status, TaskStatus.Todo),
      PriorityOr(r.priority, Medium),
      if r.dueDate.Given? then Some(r.dueDate.value) else None,
      r.progress.OrElse(0),
      Some(r.tags.OrElse([])))
  }

  /** A request with only a title and a project stores every default. */
  lemma StoreDefaults(projectId: nat)
    ensures var r := TaskInput(Given("Write report"), Absent, Given(projectId), Absent, Absent, Absent,
                               Absent, Absent, Absent, Absent);
      TaskInputValid(r, {projectId}, {}) && TaskRow(r, {projectId}, {}) ==
        Task(0, projectId, "Write report", Some(""), None, TaskStatus.Todo, Medium, None, 0, Some([]))
  {
    var r := TaskInput(Given("Write report"), Absent, Given(projectId), Absent, Absent, Absent,
                       Absent, Absent, Absent, Absent);
    assert TaskInputValid(r, {projectId}, {});
    TrimUnchanged("Write report");
    var t := TaskRow(r, {projectId}, {});
    assert t.title == "Write report";
  }

  /**
   * `store`: a request breaking a rule gives 422 and nothing changes;
   * otherwise the task is inserted, its project is recounted over the new
   * task list, and 201 is returned.
   */
  method Store(w: Workspace, r: TaskInput, userIds: set<nat>) returns (code: int)
    requires w.Valid()
    modifies w
    ensures w.Valid()
    ensures !TaskInputValid(r, old(ProjectIds(w.projects)), userIds) ==>
      code == 422 && w.projects == old(w.projects) && w.tasks == old(w.tasks)
      && w.nextTaskId == old(w.nextTaskId)
    ensures TaskInputValid(r, old(ProjectIds(w.projects)), userIds) ==>
      var t := TaskRow(r, old(ProjectIds(w.projects)), userIds).(id := old(w.nextTaskId));
      var i := FindProject(old(w.projects), t.projectId).value;
      && code == 201
      && w.tasks == old(w.tasks) + [t]
      && i < |old(w.projects)|
      && w.projects == old(w.projects)[i := Recount(old(w.projects)[i], old(w.tasks) + [t])]
  {
    if !TaskInputValid(r, ProjectIds(w.projects), userIds) {
      return 422;
    }
    var t := w.InsertTask(TaskRow(r, ProjectIds(w.projects), userIds));
    UpdateProjectProgress(w, t.projectId);
    code := 201;
  }

  /** The body of an update request. */
  datatype TaskPatch = TaskPatch(
    title: Field<string>,
    description: Field<string>,
    projectId: Field<nat>,
    assigneeId: Field<nat>,
    status: Field<string>,
    priority: Field<string>,
    dueDate: Field<int>,
    progress: Field<int>,
    tags: Field<seq<string>>,
    todoList: Field<seq<TodoItem>>)

  /** The rules of `update`: the `sometimes` keys may be left out but not sent as null. */
  predicate TaskPatchValid(p: TaskPatch, projectIds: set<nat>, userIds: set<nat>)
  {
    && SometimesText(p.title, 255)
    && OptionalText(p.description, 1000)
    && (p.projectId.Absent? || (p.projectId.Given? && p.projectId.value in projectIds))
    && OptionalRef(p.assigneeId, userIds)
    && SometimesIn(p.status, TaskStatuses)
    && SometimesIn(p.priority, Priorities)
    && !p.dueDate.Malformed?
    && SometimesPercent(p.progress)
    && TagsValid(p.tags)
    && TodoListValid(p.todoList)
  }

  /** `$task->update($validated)`: every key sent overwrites its column, nulls included; `todo_list` is dropped. */
  function PatchedTask(t: Task, p: TaskPatch, projectIds: set<nat>, userIds: set<nat>): (r: Task)
    requires TaskPatchValid(p, projectIds, userIds)
    ensures r.id == t.id
    ensures p.title.Given? ==> r.title == p.title.value
    ensures !p.title.Given? ==> r.title == t.title
    ensures p.description.Absent? ==> r.description == t.description
    ensures p.description.Null? ==> r.description.None?
    ensures p.description.Given? ==> r.description == Some(p.description.value)
    ensures p.projectId.Absent? ==> r.projectId == t.projectId
    ensures p.projectId.Given? ==> r.projectId == p.projectId.value && r.projectId in projectIds
    ensures p.assigneeId.Absent? ==> r.assigneeId == t.assigneeId
    ensures p.assigneeId.Null? ==> r.assigneeId.None?
    ensures p.assigneeId.Given? ==> r.assigneeId == Some(p.assigneeId.value) && p.assigneeId.value in userIds
    ensures p.status.Given? ==> r.status.Name() == p.status.value
    ensures !p.status.Given? ==> r.status == t.status
    ensures p.priority.Given? ==> r.priority.Name() == p.priority.value
    ensures !p.priority.Given? ==> r.priority == t.priority
    ensures p.dueDate.Absent? ==> r.dueDate == t.dueDate
    ensures p.dueDate.Null? ==> r.dueDate.None?
    ensures p.dueDate.Given? ==> r.dueDate == Some(p.dueDate.value)
    ensures p.progress.Given? ==> r.progress == p.progress.value && 0 <= r.progress <= 100
    ensures !p.progress.Given? ==> r.progress == t.progress
    ensures p.tags.Absent? ==> r.tags == t.tags
    ensures p.tags.Null? ==> r.tags.None?
    ensures p.tags.Given? ==> r.tags == Some(p.tags.value)
    ensures p == TaskPatch(Absent, Absent, Absent, Absent, Absent, Absent, Absent, Absent, Absent, p.todoList)
      ==> r == t
  {
    Task(t.id,
      p.projectId.OrElse(t.projectId),
      p.title.OrElse(t.title),
      p.description.OverNullable(t.description),
      p.assigneeId.OverNullable(t.assigneeId),
      TaskStatusOr(p.status, t.status),
      PriorityOr(p.priority, t.priority),
      p.dueDate.OverNullable(t.dueDate),
      p.progress.OrElse(t.progress),
      p.tags.OverNullable(t.tags))
  }

  /**
   * `update`: an unknown id gives 404 and a rule broken 422, with no
   * change. Otherwise the task is patched and the project it now belongs to
   * is recounted over the new task list; a project the task was moved away
   * from is not recounted.
   */
  method Update(w: Workspace, id: nat, p: TaskPatch, userIds: set<nat>) returns (code: int)
    requires w.Valid()
    modifies w
    ensures w.Valid()
    ensures FindTask(old(w.tasks), id).None? ==>
      code == 404 && w.projects == old(w.projects) && w.tasks == old(w.tasks)
    ensures FindTask(old(w.tasks), id).Some? && !TaskPatchValid(p, old(ProjectIds(w.projects)), userIds) ==>
      code == 422 && w.projects == old(w.projects) && w.tasks == old(w.tasks)
    ensures FindTask(old(w.tasks), id).Some? && TaskPatchValid(p, old(ProjectIds(w.projects)), userIds) ==>
      var k := FindTask(old(w.tasks), id).value;
      var t := PatchedTask(old(w.tasks)[k], p, old(ProjectIds(w.projects)), userIds);
      var i := FindProject(old(w.projects), t.projectId).value;
      && code == 200
      && w.tasks == old(w.tasks)[k := t]
      && i < |old(w.projects)|
      && w.projects == old(w.projects)[i := Recount(old(w.projects)[i], w.tasks)]
  {
    match FindTask(w.tasks, id)
    case None =>
      return 404;
    case Some(k) =>
      if !TaskPatchValid(p, ProjectIds(w.projects), userIds) {
        return 422;
      }
      var t := PatchedTask(w.tasks[k], p, ProjectIds(w.projects), userIds);
      assert t.projectId in ProjectIds(w.projects);
      w.ReplaceTask(k, t);
      UpdateProjectProgress(w, t.projectId);
      code := 200;
  }

  /**
   * `destroy`: an unknown id gives 404 with no change; otherwise the task is
   * deleted and its project recounted over the remaining tasks.
   */
  method Destroy(w: Workspace, id: nat) returns (code: int)
    requires w.Valid()
    modifies w
    ensures w.Valid()
    ensures FindTask(old(w.tasks), id).None? ==>
      code == 404 && w.projects == old(w.projects) && w.tasks == old(w.tasks)
    ensures FindTask(old(w.tasks), id).Some? ==>
      var k := FindTask(old(w.tasks), id).value;
      var i := FindProject(old(w.projects), old(w.tasks)[k].projectId).value;
      && code == 200
      && w.tasks == old(w.tasks)[..k] + old(w.tasks)[k + 1..]
      && i < |old(w.projects)|
      && w.projects == old(w.projects)[i := Recount(old(w.projects)[i], w.tasks)]
  {
    match FindTask(w.tasks, id)
    case None =>
      return 404;
    case Some(k) =>
      var projectId := w.tasks[k].projectId;
      assert projectId in ProjectIds(w.projects) by {
        assert TasksOwned(w.tasks, w.projects);
      }
      ghost var i := FindProject(w.projects, projectId).value;
      w.DeleteTask(k);
      assert FindProject(w.projects, projectId) == Some(i);
      UpdateProjectProgress(w, projectId);
      code := 200;
  }
}
