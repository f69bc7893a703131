/**
 * Projects and their tasks (app/Models/Project.php, with the `tasks` and
 * `projects` tables): the task counts, the progress computed from them, and
 * `updateProgress`, which writes that progress back. The two tables live in
 * one `Workspace` object because a project's progress and the cascade on
 * delete tie them together.
 */
module ProjectModel {
  import opened Common
  import opened PhpMath

  /** The `status` enum column of `tasks` (default `Todo`). */
  datatype TaskStatus = Todo | InProgress | Completed
  {
    function Name(): string
    {
      match this
      case Todo => "Todo"
      case InProgress => "In Progress"
      case Completed => "Completed"
    }
  }

  /** The `status` enum column of `projects` (default `Planning`). */
  datatype ProjectStatus = Planning | InProgress | Completed | OnHold
  {
    function Name(): string
    {
      match this
      case Planning => "Planning"
      case InProgress => "In Progress"
      case Completed => "Completed"
      case OnHold => "On Hold"
    }
  }

  /** The `priority` enum column of both tables (default `Medium`). */
  datatype Priority = Low | Medium | High
  {
    function Name(): string
    {
      match this
      case Low => "Low"
      case Medium => "Medium"
      case High => "High"
    }
  }

  /** The values the `in:Low,Medium,High` rules accept. */
  const Priorities: seq<string> := ["Low", "Medium", "High"]

  function PriorityOf(s: string): (p: Priority)
    requires s in Priorities
    ensures p.Name() == s
  {
    if s == "Low" then Low else if s == "Medium" then Medium else High
  }

  /** A sent priority replaces the stored one; an absent or null one leaves `current`. */
  function PriorityOr(f: Field<string>, current: Priority): (r: Priority)
    requires f.Given? ==> f.value in Priorities
    ensures f.Given? ==> r.Name() == f.value
    ensures !f.Given? ==> r == current
  {
    if f.Given? then PriorityOf(f.value) else current
  }

  /** One row of `projects`; dates are day numbers. */
  datatype Project = Project(
    id: nat,
    name: string,
    description: Option<string>,
    status: ProjectStatus,
    priority: Priority,
    progress: int,
    dueDate: Option<int>)

  /**
   * One row of `tasks`. There is no `todo_list` field: the column exists, but
   * it is not mass-assignable on the model, so nothing the controllers write
   * ever reaches it.
   */
  datatype Task = Task(
    id: nat,
    projectId: nat,
    title: string,
    description: Option<string>,
    assigneeId: Option<nat>,
    status: TaskStatus,
    priority: Priority,
    dueDate: Option<int>,
    progress: int,
    tags: Option<seq<string>>)

  /** `$project->tasks()`: the tasks whose `project_id` is this project's id, in order. */
  function TasksOf(tasks: seq<Task>, projectId: nat): (r: seq<Task>)
    ensures |r| <= |tasks|
    ensures forall t :: t in r <==> t in tasks && t.projectId == projectId
    decreases |tasks|
  {
    if |tasks| == 0 then []
    else (if tasks[0].projectId == projectId then [tasks[0]] else []) + TasksOf(tasks[1..], projectId)
  }

  /** A list of one project's tasks is its own task list. */
  lemma {:induction false} TasksOfOwnList(tasks: seq<Task>, projectId: nat)
    requires forall i :: 0 <= i < |tasks| ==> tasks[i].projectId == projectId
    ensures TasksOf(tasks, projectId) == tasks
    decreases |tasks|
  {
    if |tasks| > 0 {
      TasksOfOwnList(tasks[1..], projectId);
    }
  }

  /** `->where('status', s)->count()` on a list of tasks. */
  function CountStatus(tasks: seq<Task>, s: TaskStatus): (n: nat)
    ensures n <= |tasks|
    ensures n == 0 <==> forall t :: t in tasks ==> t.status != s
    ensures n == |tasks| <==> forall t :: t in tasks ==> t.status == s
    decreases |tasks|
  {
    if |tasks| == 0 then 0
    else (if tasks[0].status == s then 1 else 0) + CountStatus(tasks[1..], s)
  }

  /** Every task has exactly one of the three statuses, so the three counts add up to the total. */
  lemma {:induction false} CountsPartition(tasks: seq<Task>)
    ensures CountStatus(tasks, TaskStatus.Completed) + CountStatus(tasks, TaskStatus.InProgress)
            + CountStatus(tasks, TaskStatus.Todo) == |tasks|
    decreases |tasks|
  {
    if |tasks| > 0 {
      CountsPartition(tasks[1..]);
    }
  }

  /** The figures `getTaskStats` reports. */
  datatype TaskStats = TaskStats(total: nat, completed: nat, inProgress: nat, todo: nat)

  /** The four counts over a list of tasks, each from a fresh query; the three status counts partition the total. */
  function StatsOf(tasks: seq<Task>): (r: TaskStats)
    ensures r.total == |tasks|
    ensures r.completed + r.inProgress + r.todo == r.total
    ensures r.completed == CountStatus(tasks, TaskStatus.Completed)
    ensures r.inProgress == CountStatus(tasks, TaskStatus.InProgress)
    ensures r.todo == CountStatus(tasks, TaskStatus.Todo)
  {
    CountsPartition(tasks);
    TaskStats(|tasks|, CountStatus(tasks, TaskStatus.Completed), CountStatus(tasks, TaskStatus.InProgress),
              CountStatus(tasks, TaskStatus.Todo))
  }

  /** `getTaskStats`: the counts over the project's own tasks. */
  function GetTaskStats(tasks: seq<Task>, projectId: nat): (r: TaskStats)
    ensures r == StatsOf(TasksOf(tasks, projectId))
    ensures r.total == |TasksOf(tasks, projectId)|
    ensures r.completed + r.inProgress + r.todo == r.total
  {
    StatsOf(TasksOf(tasks, projectId))
  }

  /**
   * The progress `updateProgress` computes: 0 without tasks, otherwise
   * `round(completed / total * 100)`, the stored progress playing no part.
   */
  function ComputedProgress(tasks: seq<Task>, projectId: nat): (p: int)
    ensures 0 <= p <= 100
    ensures |TasksOf(tasks, projectId)| == 0 ==> p == 0
    ensures |TasksOf(tasks, projectId)| > 0 ==>
      p == Percent(CountStatus(TasksOf(tasks, projectId), TaskStatus.Completed), |TasksOf(tasks, projectId)|)
    ensures (forall t :: t in tasks && t.projectId == projectId ==> t.status != TaskStatus.Completed) ==> p == 0
    ensures |TasksOf(tasks, projectId)| > 0 ==>
      (forall t :: t in tasks && t.projectId == projectId ==> t.status == TaskStatus.Completed) ==> p == 100
  {
    var own := TasksOf(tasks, projectId);
    if |own| == 0 then 0 else Percent(CountStatus(own, TaskStatus.Completed), |own|)
  }

  /**
   * Below 200 tasks the progress is 100 exactly when every task is completed
   * and there is at least one. From 200 tasks on, rounding lets a project
   * with one open task read 100 (199 of 200 is 99.5, which rounds up).
   */
  lemma FullProgressIffAllCompleted(tasks: seq<Task>, projectId: nat)
    requires |TasksOf(tasks, projectId)| < 200
    ensures ComputedProgress(tasks, projectId) == 100 <==>
      |TasksOf(tasks, projectId)| > 0 &&
      forall t :: t in tasks && t.projectId == projectId ==> t.status == TaskStatus.Completed
  {
    var own := TasksOf(tasks, projectId);
    if |own| > 0 && CountStatus(own, TaskStatus.Completed) < |own| {
      PercentBelowWhole(CountStatus(own, TaskStatus.Completed), |own|);
    }
  }

  /** Likewise, below 200 tasks the progress is 0 exactly when no task is completed. */
  lemma ZeroProgressIffNoneCompleted(tasks: seq<Task>, projectId: nat)
    requires |TasksOf(tasks, projectId)| < 200
    ensures ComputedProgress(tasks, projectId) == 0 <==>
      forall t :: t in tasks && t.projectId == projectId ==> t.status != TaskStatus.Completed
  {
    var own := TasksOf(tasks, projectId);
    if |own| > 0 && CountStatus(own, TaskStatus.Completed) > 0 {
      PercentAbovePartZero(CountStatus(own, TaskStatus.Completed), |own|);
    }
  }

  /** `updateProgress` on one row: only `progress` changes, to the computed value. */
  function WithProgress(p: Project, tasks: seq<Task>): (r: Project)
    ensures r == p.(progress := r.progress)
    ensures r.progress == ComputedProgress(tasks, p.id)
    ensures 0 <= r.progress <= 100 && r.status == p.status
  {
    p.(progress := ComputedProgress(tasks, p.id))
  }

  /** While the tasks stay as they are, a second `updateProgress` changes nothing. */
  lemma UpdateProgressIdempotent(p: Project, tasks: seq<Task>)
    ensures WithProgress(WithProgress(p, tasks), tasks) == WithProgress(p, tasks)
  {
  }

  /** The ids of a list of projects. */
  function ProjectIds(projects: seq<Project>): set<nat>
  {
    set i | 0 <= i < |projects| :: projects[i].id
  }

  /** Ids strictly increase along the list and stay below the next auto-increment id. */
  predicate ProjectIdsOrdered(projects: seq<Project>, nextId: nat)
  {
    && (forall i :: 0 <= i < |projects| ==> projects[i].id < nextId)
    && (forall i, j :: 0 <= i < j < |projects| ==> projects[i].id < projects[j].id)
  }

  predicate TaskIdsOrdered(tasks: seq<Task>, nextId: nat)
  {
    && (forall i :: 0 <= i < |tasks| ==> tasks[i].id < nextId)
    && (forall i, j :: 0 <= i < j < |tasks| ==> tasks[i].id < tasks[j].id)
  }

  /** The foreign key `tasks.project_id` references `projects.id`. */
  predicate TasksOwned(tasks: seq<Task>, projects: seq<Project>)
  {
    forall i :: 0 <= i < |tasks| ==> tasks[i].projectId in ProjectIds(projects)
  }

  /** Index of the project with this id (`Project::find($id)`). */
  function FindProject(projects: seq<Project>, id: nat): (o: Option<nat>)
    ensures o.Some? ==> o.value < |projects| && projects[o.value].id == id
    ensures o.None? <==> id !in ProjectIds(projects)
    decreases |projects|
  {
    if |projects| == 0 then None
    else if projects[0].id == id then Some(0)
    else match FindProject(projects[1..], id)
      case None =>
        assert ProjectIds(projects) == {projects[0].id} + ProjectIds(projects[1..]) by {
          ProjectIdsCons(projects);
        }
        None
      case Some(j) => Some(j + 1)
  }

  lemma ProjectIdsCons(projects: seq<Project>)
    requires |projects| > 0
    ensures ProjectIds(projects) == {projects[0].id} + ProjectIds(projects[1..])
  {
    forall x | x in ProjectIds(projects) ensures x in {projects[0].id} + ProjectIds(projects[1..]) {
      var i :| 0 <= i < |projects| && projects[i].id == x;
      if i > 0 {
        assert projects[1..][i - 1].id == x;
      }
    }
    forall x | x in ProjectIds(projects[1..]) ensures x in ProjectIds(projects) {
      var i :| 0 <= i < |projects[1..]| && projects[1..][i].id == x;
      assert projects[i + 1].id == x;
    }
  }

  /** Index of the task with this id (`Task::find($id)`). */
  function FindTask(tasks: seq<Task>, id: nat): (o: Option<nat>)
    ensures o.Some? ==> o.value < |tasks| && tasks[o.value].id == id
    ensures o.None? <==> forall i :: 0 <= i < |tasks| ==> tasks[i].id != id
    decreases |tasks|
  {
    if |tasks| == 0 then None
    else if tasks[0].id == id then Some(0)
    else match FindTask(tasks[1..], id)
      case None => None
      case Some(j) => Some(j + 1)
  }

  /** The tasks that survive deleting a project: every task of another project, in order. */
  function WithoutProject(tasks: seq<Task>, projectId: nat): (r: seq<Task>)
    ensures |r| <= |tasks|
    ensures forall t :: t in r <==> t in tasks && t.projectId != projectId
    decreases |tasks|
  {
    if |tasks| == 0 then []
    else (if tasks[0].projectId != projectId then [tasks[0]] else []) + WithoutProject(tasks[1..], projectId)
  }

  /** After the cascade the deleted project has no tasks left. */
  lemma {:induction false} NoTasksLeft(tasks: seq<Task>, projectId: nat)
    ensures TasksOf(WithoutProject(tasks, projectId), projectId) == []
    decreases |tasks|
  {
    if |tasks| > 0 {
      NoTasksLeft(tasks[1..], projectId);
      var rest := WithoutProject(tasks[1..], projectId);
      if tasks[0].projectId != projectId {
        assert ([tasks[0]] + rest)[1..] == rest;
      } else {
        assert [] + rest == rest;
      }
    }
  }

  lemma {:induction false} WithoutProjectOrdered(tasks: seq<Task>, projectId: nat, nextId: nat)
    requires TaskIdsOrdered(tasks, nextId)
    ensures TaskIdsOrdered(WithoutProject(tasks, projectId), nextId)
    decreases |tasks|
  {
    if |tasks| > 0 {
      assert TaskIdsOrdered(tasks[1..], nextId);
      WithoutProjectOrdered(tasks[1..], projectId, nextId);
      var rest := WithoutProject(tasks[1..], projectId);
      forall j | 0 <= j < |rest| ensures tasks[0].id < rest[j].id {
        assert rest[j] in tasks[1..];
      }
      forall t | t in WithoutProject(tasks, projectId) ensures t.id < nextId {
        assert t in tasks;
      }
    }
  }

  /** Removing the project at index `i` keeps every other project's id. */
  lemma RemoveProjectIds(projects: seq<Project>, i: nat, nextId: nat)
    requires ProjectIdsOrdered(projects, nextId) && i < |projects|
    ensures ProjectIdsOrdered(projects[..i] + projects[i + 1..], nextId)
    ensures forall x :: x in ProjectIds(projects) && x != projects[i].id ==>
      x in ProjectIds(projects[..i] + projects[i + 1..])
  {
    var rest := projects[..i] + projects[i + 1..];
    forall x | x in ProjectIds(projects) && x != projects[i].id ensures x in ProjectIds(rest) {
      var j :| 0 <= j < |projects| && projects[j].id == x;
      if j < i {
        assert rest[j] == projects[j];
      } else {
        assert rest[j - 1] == projects[j];
      }
    }
  }

  /**
   * The `projects` and `tasks` tables. Ids are assigned in increasing order
   * and every task belongs to an existing project.
   */
  class Workspace {
    var projects: seq<Project>
    var tasks: seq<Task>
    var nextProjectId: nat
    var nextTaskId: nat

    ghost predicate Valid()
      reads this
    {
      && ProjectIdsOrdered(projects, nextProjectId)
      && TaskIdsOrdered(tasks, nextTaskId)
      && TasksOwned(tasks, projects)
    }

    constructor ()
      ensures Valid()
      ensures projects == [] && tasks == [] && nextProjectId == 1 && nextTaskId == 1
    {
      projects := [];
      tasks := [];
      nextProjectId := 1;
      nextTaskId := 1;
    }

    /** `Project::create`: the row gets the next id. */
    method InsertProject(row: Project) returns (p: Project)
      requires Valid()
      modifies this
      ensures Valid()
      ensures p == row.(id := old(nextProjectId))
      ensures projects == old(projects) + [p] && nextProjectId == old(nextProjectId) + 1
      ensures tasks == old(tasks) && nextTaskId == old(nextTaskId)
    {
      p := row.(id := nextProjectId);
      assert ProjectIds(projects) <= ProjectIds(projects + [p]) by {
        forall x | x in ProjectIds(projects) ensures x in ProjectIds(projects + [p]) {
          var j :| 0 <= j < |projects| && projects[j].id == x;
          assert (projects + [p])[j] == projects[j];
        }
      }
      projects := projects + [p];
      nextProjectId := nextProjectId + 1;
    }

    /** `Task::create`: the row gets the next id; its project must exist. */
    method InsertTask(row: Task) returns (t: Task)
      requires Valid() && row.projectId in ProjectIds(projects)
      modifies this
      ensures Valid()
      ensures t == row.(id := old(nextTaskId))
      ensures tasks == old(tasks) + [t] && nextTaskId == old(nextTaskId) + 1
      ensures projects == old(projects) && nextProjectId == old(nextProjectId)
    {
      t := row.(id := nextTaskId);
      tasks := tasks + [t];
      nextTaskId := nextTaskId + 1;
    }

    /** `$project->update(...)` on the row at index `i`, keeping its id. */
    method ReplaceProject(i: nat, row: Project)
      requires Valid() && i < |projects| && row.id == projects[i].id
      modifies this
      ensures Valid()
      ensures projects == old(projects)[i := row] && tasks == old(tasks)
      ensures nextProjectId == old(nextProjectId) && nextTaskId == old(nextTaskId)
    {
      assert ProjectIds(projects[i := row]) == ProjectIds(projects) by {
        forall x | x in ProjectIds(projects) ensures x in ProjectIds(projects[i := row]) {
          var j :| 0 <= j < |projects| && projects[j].id == x;
          assert projects[i := row][j].id == x;
        }
      }
      projects := projects[i := row];
    }

    /** `$task->update(...)` on the row at index `i`, keeping its id; the project must exist. */
    method ReplaceTask(i: nat, row: Task)
      requires Valid() && i < |tasks| && row.id == tasks[i].id && row.projectId in ProjectIds(projects)
      modifies this
      ensures Valid()
      ensures tasks == old(tasks)[i := row] && projects == old(projects)
      ensures nextProjectId == old(nextProjectId) && nextTaskId == old(nextTaskId)
    {
      tasks := tasks[i := row];
    }

    /** `$task->delete()` of the row at index `i`. */
    method DeleteTask(i: nat)
      requires Valid() && i < |tasks|
      modifies this
      ensures Valid()
      ensures tasks == old(tasks)[..i] + old(tasks)[i + 1..] && projects == old(projects)
      ensures nextProjectId == old(nextProjectId) && nextTaskId == old(nextTaskId)
    {
      var rest := tasks[..i] + tasks[i + 1..];
      forall j | 0 <= j < |rest| ensures rest[j] == (if j < i then tasks[j] else tasks[j + 1]) {
      }
      tasks := rest;
    }

    /**
     * `$project->delete()` of the row at index `i`: the foreign key's
     * `ON DELETE CASCADE` removes the project's tasks with it.
     */
    method DeleteProject(i: nat)
      requires Valid() && i < |projects|
      modifies this
      ensures Valid()
      ensures projects == old(projects)[..i] + old(projects)[i + 1..]
      ensures tasks == WithoutProject(old(tasks), old(projects)[i].id)
      ensures nextProjectId == old(nextProjectId) && nextTaskId == old(nextTaskId)
    {
      var id := projects[i].id;
      RemoveProjectIds(projects, i, nextProjectId);
      WithoutProjectOrdered(tasks, id, nextTaskId);
      var rest := WithoutProject(tasks, id);
      forall j | 0 <= j < |rest| ensures rest[j].projectId in ProjectIds(projects[..i] + projects[i + 1..]) {
        assert rest[j] in tasks;
        var k :| 0 <= k < |tasks| && tasks[k] == rest[j];
      }
      projects := projects[..i] + projects[i + 1..];
      tasks := rest;
    }

    /**
     * `Project::updateProgress()` on the row at index `i`: only its
     * `progress` changes, to the value computed from its tasks; the status
     * is not touched.
     */
    method UpdateProgress(i: nat)
      requires Valid() && i < |projects|
      modifies this
      ensures Valid()
      ensures projects == old(projects)[i := WithProgress(old(projects)[i], old(tasks))]
      ensures tasks == old(tasks)
      ensures nextProjectId == old(nextProjectId) && nextTaskId == old(nextTaskId)
    {
      ReplaceProject(i, WithProgress(projects[i], tasks));
    }
  }
}
