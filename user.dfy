/**
 * The helpers of app/Models/User.php: the counts of a user's assigned
 * tasks, the performance score built on them, and the merged list of the
 * user's project names.
 */
module UserModel {
  import opened Common
  import opened PhpMath
  import opened ProjectModel

  /** `assignedTasks()`: the tasks whose `assignee_id` is this user, in order. */
  function AssignedTasks(tasks: seq<Task>, userId: nat): (r: seq<Task>)
    ensures |r| <= |tasks|
    ensures forall t :: t in r <==> t in tasks && t.assigneeId == Some(userId)
    decreases |tasks|
  {
    if |tasks| == 0 then []
    else (if tasks[0].assigneeId == Some(userId) then [tasks[0]] else []) + AssignedTasks(tasks[1..], userId)
  }

  /** A row passes the `where('status', ...)` clauses in `filters` when its status equals each of them. */
  predicate PassesAll(t: Task, filters: seq<TaskStatus>)
    decreases |filters|
  {
    |filters| == 0 || (t.status == filters[0] && PassesAll(t, filters[1..]))
  }

  /** A row passes a clause list only if its status equals each clause. */
  lemma {:induction false} PassesAllEach(t: Task, filters: seq<TaskStatus>, i: nat)
    requires i < |filters| && PassesAll(t, filters)
    ensures t.status == filters[i]
    decreases |filters|
  {
    if i > 0 {
      PassesAllEach(t, filters[1..], i - 1);
    }
  }

  /**
   * The rows a query builder returns after the clauses in `filters` have
   * been added to it, in order.
   */
  function Matching(tasks: seq<Task>, filters: seq<TaskStatus>): (r: seq<Task>)
    ensures |r| <= |tasks|
    ensures forall t :: t in r <==> t in tasks && PassesAll(t, filters)
    decreases |tasks|
  {
    if |tasks| == 0 then []
    else (if PassesAll(tasks[0], filters) then [tasks[0]] else []) + Matching(tasks[1..], filters)
  }

  /** Without clauses every row is returned. */
  lemma {:induction false} MatchingNone(tasks: seq<Task>)
    ensures Matching(tasks, []) == tasks
    decreases |tasks|
  {
    if |tasks| > 0 {
      MatchingNone(tasks[1..]);
    }
  }

  /** With one clause the builder counts the rows of that status. */
  lemma {:induction false} MatchingOne(tasks: seq<Task>, s: TaskStatus)
    ensures |Matching(tasks, [s])| == CountStatus(tasks, s)
    decreases |tasks|
  {
    if |tasks| > 0 {
      MatchingOne(tasks[1..], s);
      assert [s][1..] == [];
      assert PassesAll(tasks[0], [s]) == (tasks[0].status == s);
    }
  }

  /** Two different status clauses on the same builder can never both hold. */
  lemma {:induction false} MatchingContradictory(tasks: seq<Task>, filters: seq<TaskStatus>, i: nat, j: nat)
    requires i < |filters| && j < |filters| && filters[i] != filters[j]
    ensures Matching(tasks, filters) == []
    decreases |tasks|
  {
    if |tasks| > 0 {
      MatchingContradictory(tasks[1..], filters, i, j);
      if PassesAll(tasks[0], filters) {
        PassesAllEach(tasks[0], filters, i);
        PassesAllEach(tasks[0], filters, j);
      }
    }
  }

  /**
   * `getTaskStats` as the code is written: the four counts are taken on one
   * relation builder, and each `where()` adds its clause to that builder,
   * so the later counts also carry every earlier clause.
   */
  method GetTaskStatsAsWritten(tasks: seq<Task>, userId: nat) returns (stats: TaskStats)
    ensures stats.total == |AssignedTasks(tasks, userId)|
    ensures stats.completed == CountStatus(AssignedTasks(tasks, userId), TaskStatus.Completed)
    ensures stats.inProgress == 0 && stats.todo == 0
  {
    var mine := AssignedTasks(tasks, userId);
    var builder: seq<TaskStatus> := [];
    MatchingNone(mine);
    var total := |Matching(mine, builder)|;
    builder := builder + [TaskStatus.Completed];
    assert builder == [TaskStatus.Completed];
    MatchingOne(mine, TaskStatus.Completed);
    var completed := |Matching(mine, builder)|;
    builder := builder + [TaskStatus.InProgress];
    MatchingContradictory(mine, builder, 0, 1);
    var inProgress := |Matching(mine, builder)|;
    builder := builder + [TaskStatus.Todo];
    MatchingContradictory(mine, builder, 0, 2);
    var todo := |Matching(mine, builder)|;
    stats := TaskStats(total, completed, inProgress, todo);
  }

  /** As written, a user with one task in progress is reported with none. */
  method InProgressLostAsWritten(t: Task, userId: nat) returns (asWritten: TaskStats, intended: TaskStats)
    requires t.assigneeId == Some(userId) && t.status == TaskStatus.InProgress
    ensures asWritten.inProgress == 0 && intended.inProgress == 1
  {
    assert [t][1..] == [];
    asWritten := GetTaskStatsAsWritten([t], userId);
    intended := GetTaskStats([t], userId);
  }

  /** `getTaskStats` with the evident intent: every count on a fresh query over the assigned tasks. */
  function GetTaskStats(tasks: seq<Task>, userId: nat): (r: TaskStats)
    ensures r.total == |AssignedTasks(tasks, userId)|
    ensures r.completed + r.inProgress + r.todo == r.total
    ensures r.completed == CountStatus(AssignedTasks(tasks, userId), TaskStatus.Completed)
    ensures r.inProgress == CountStatus(AssignedTasks(tasks, userId), TaskStatus.InProgress)
    ensures r.todo == CountStatus(AssignedTasks(tasks, userId), TaskStatus.Todo)
  {
    StatsOf(AssignedTasks(tasks, userId))
  }

  /** Adding a whole number to a non-negative value shifts its rounding by that number. */
  lemma RoundShift(x: real, k: nat)
    requires x >= 0.0
    ensures Round(x + k as real) == Round(x) + k
  {
    RoundUnique(x + k as real, Round(x + k as real), Round(x) + k);
  }

  /**
   * `getPerformanceScore`: 85 for a user without tasks; otherwise the
   * completion percentage plus a bonus of 5 when some task is in progress,
   * rounded and capped at 100.
   */
  function PerformanceScore(stats: TaskStats): (score: int)
    ensures stats.total == 0 ==> score == 85
    ensures 0 <= score <= 100
    ensures stats.total > 0 && stats.inProgress == 0 ==> score == Min100(Percent(stats.completed, stats.total))
    ensures stats.total > 0 && stats.inProgress > 0 ==> score == Min100(Percent(stats.completed, stats.total) + 5)
    ensures stats.total > 0 && stats.completed == stats.total ==> score == 100
  {
    if stats.total == 0 then 85
    else
      var rate := (stats.completed as real / stats.total as real) * 100.0;
      var bonus: nat := if stats.inProgress > 0 then 5 else 0;
      assert rate >= 0.0;
      RoundShift(rate, bonus);
      assert Round(rate) == Percent(stats.completed, stats.total);
      Min100(Round(rate + bonus as real))
  }

  /** `min(100, n)`. */
  function Min100(n: int): int
  {
    if n <= 100 then n else 100
  }

  /** A user with tasks scores exactly their completion percentage when nothing is in progress. */
  lemma ScoreWithoutActivity(stats: TaskStats)
    requires 0 < stats.total && stats.completed <= stats.total && stats.inProgress == 0
    ensures PerformanceScore(stats) == Percent(stats.completed, stats.total)
  {
  }

  /**
   * Because the written counts report no task in progress, the activity
   * bonus of the score can never apply.
   */
  method BonusNeverAppliesAsWritten(tasks: seq<Task>, userId: nat) returns (score: int)
    requires |AssignedTasks(tasks, userId)| > 0
    ensures var a := AssignedTasks(tasks, userId);
      score == Min100(Percent(CountStatus(a, TaskStatus.Completed), |a|))
  {
    var stats := GetTaskStatsAsWritten(tasks, userId);
    score := PerformanceScore(stats);
  }

  /** No value occurs twice. */
  predicate Distinct(s: seq<string>)
  {
    forall i, j :: 0 <= i < j < |s| ==> s[i] != s[j]
  }

  /**
   * `array_unique`: the values of `s` with every repeat after the first
   * occurrence dropped, in order.
   */
  function Unique(s: seq<string>): (r: seq<string>)
    ensures Distinct(r)
    ensures forall x :: x in r <==> x in s
    ensures |r| <= |s|
    decreases |s|
  {
    if |s| == 0 then []
    else
      var init := Unique(s[..|s| - 1]);
      var last := s[|s| - 1];
      assert forall x :: x in s <==> x in s[..|s| - 1] || x == last by {
        assert s == s[..|s| - 1] + [last];
      }
      if last in s[..|s| - 1] then init else init + [last]
  }

  /** A list without repeats is left as it is. */
  lemma {:induction false} UniqueOfDistinct(s: seq<string>)
    requires Distinct(s)
    ensures Unique(s) == s
    decreases |s|
  {
    if |s| > 0 {
      var init := s[..|s| - 1];
      assert Distinct(init);
      UniqueOfDistinct(init);
      assert s[|s| - 1] !in init by {
        forall i | 0 <= i < |init| ensures init[i] != s[|s| - 1] {
          assert init[i] == s[i];
        }
      }
      assert init + [s[|s| - 1]] == s;
    }
  }

  /** Removing repeats twice is the same as once. */
  lemma UniqueIdempotent(s: seq<string>)
    ensures Unique(Unique(s)) == Unique(s)
  {
    UniqueOfDistinct(Unique(s));
  }

  /** The de-duplication of `a` is a prefix of that of `a + b`: the values of `a` come first, in their order. */
  lemma {:induction false} UniquePrefix(a: seq<string>, b: seq<string>)
    ensures |Unique(a)| <= |Unique(a + b)| && Unique(a + b)[..|Unique(a)|] == Unique(a)
    decreases |b|
  {
    if |b| == 0 {
      assert a + b == a;
    } else {
      var b' := b[..|b| - 1];
      UniquePrefix(a, b');
      assert (a + b)[..|a + b| - 1] == a + b';
    }
  }

  /**
   * `getProjectNames`: the names of the projects the user created followed
   * by those of the projects they belong to, each name once, at its first
   * occurrence.
   */
  function ProjectNames(created: seq<string>, member: seq<string>): (names: seq<string>)
    ensures Distinct(names)
    ensures forall n :: n in names <==> n in created || n in member
    ensures |Unique(created)| <= |names| && names[..|Unique(created)|] == Unique(created)
  {
    UniquePrefix(created, member);
    Unique(created + member)
  }
}
