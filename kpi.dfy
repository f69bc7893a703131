/**
 * A key performance indicator (app/Models/Kpi.php): the same progress
 * formula as a key result, a pacing test with a 30-day default window,
 * the label maps, and `updateCurrentValue`, which writes only the value.
 */
module KpiModel {
  import opened Common
  import Metric

  datatype Frequency = Daily | Weekly | Monthly | Quarterly | Yearly
  {
    function Name(): string
    {
      match this
      case Daily => "daily"
      case Weekly => "weekly"
      case Monthly => "monthly"
      case Quarterly => "quarterly"
      case Yearly => "yearly"
    }
  }

  /** The `status` enum column of `kpis` (default `active`). */
  datatype KpiStatus = Active | Paused | Completed | Cancelled
  {
    function Name(): string
    {
      match this
      case Active => "active"
      case Paused => "paused"
      case Completed => "completed"
      case Cancelled => "cancelled"
    }
  }

  /** One row of `kpis`; the decimal columns are exact reals, dates are day numbers. */
  datatype Kpi = Kpi(
    id: nat,
    userId: nat,
    projectId: Option<nat>,
    name: string,
    description: Option<string>,
    category: string,
    unit: string,
    target: real,
    current: real,
    baseline: real,
    frequency: Frequency,
    direction: Metric.Direction,
    status: KpiStatus,
    startDate: int,
    endDate: Option<int>)

  predicate HasProgress(k: Kpi)
  {
    Metric.Defined(k.target, k.baseline)
  }

  /** `progress`: the same guard, formula and clamp as a key result. */
  function Progress(k: Kpi): (p: real)
    requires HasProgress(k)
    ensures 0.0 <= p <= 100.0
    ensures k.target == 0.0 ==> p == 0.0
    ensures k.target != 0.0 && k.current == k.baseline ==> p == 0.0
    ensures k.target != 0.0 && k.current == k.target ==> p == 100.0
  {
    if k.target != 0.0 then
      Metric.EndPoints(k.target, k.baseline);
      Metric.LinearProgress(k.target, k.current, k.baseline)
    else
      Metric.LinearProgress(k.target, k.current, k.baseline)
  }

  /** `isOnTrack()`: with no end date the window is 30 days; `None` is a division by zero. */
  function IsOnTrack(k: Kpi, daysElapsed: int, daysToEnd: Option<int>): (r: Option<bool>)
    requires HasProgress(k)
    ensures r.None? <==> (daysToEnd.Some? && daysToEnd.value + daysElapsed == 0)
    ensures daysToEnd.None? ==> r == Metric.OnPace(Progress(k), daysElapsed, 30)
    ensures daysToEnd.Some? ==> r == Metric.OnPace(Progress(k), daysElapsed, daysToEnd.value + daysElapsed)
  {
    Metric.OnPace(Progress(k), daysElapsed, Metric.TotalDays(daysElapsed, daysToEnd, 30))
  }

  /** Without an end date, 30 elapsed days expect 100 percent: only a finished KPI is on track. */
  lemma FullWindowNeedsFullProgress(k: Kpi)
    requires HasProgress(k)
    ensures IsOnTrack(k, 30, None) == Some(Progress(k) >= 100.0)
  {
    Metric.OnPaceAtEnd(Progress(k), 30);
  }

  /** On the first day nothing is expected yet: every KPI is on track whenever the window is positive. */
  lemma FirstDayOnTrack(k: Kpi, daysToEnd: Option<int>)
    requires HasProgress(k)
    requires daysToEnd.Some? ==> daysToEnd.value > 0
    ensures IsOnTrack(k, 0, daysToEnd) == Some(true)
  {
    Metric.OnPaceAtStart(Progress(k), Metric.TotalDays(0, daysToEnd, 30));
  }

  /** `status_color`, on the raw column text; anything unlisted is gray. */
  function StatusColor(status: string): (c: string)
    ensures status == "active" ==> c == "green"
    ensures status == "paused" ==> c == "yellow"
    ensures status == "completed" ==> c == "blue"
    ensures status == "cancelled" ==> c == "red"
    ensures c == "gray" <==> status !in ["active", "paused", "completed", "cancelled"]
  {
    if status == "active" then "green"
    else if status == "paused" then "yellow"
    else if status == "completed" then "blue"
    else if status == "cancelled" then "red"
    else "gray"
  }

  /** The four stored statuses get four different colours, none of them gray. */
  lemma StatusColorsDistinct(s1: KpiStatus, s2: KpiStatus)
    ensures StatusColor(s1.Name()) != "gray"
    ensures s1 != s2 ==> StatusColor(s1.Name()) != StatusColor(s2.Name())
  {
  }

  /** `frequency_label`: capitalised frequency names; anything unlisted reads `Monthly`. */
  function FrequencyLabel(frequency: string): (l: string)
    ensures frequency == "daily" ==> l == "Daily"
    ensures frequency == "weekly" ==> l == "Weekly"
    ensures frequency == "monthly" ==> l == "Monthly"
    ensures frequency == "quarterly" ==> l == "Quarterly"
    ensures frequency == "yearly" ==> l == "Yearly"
    ensures frequency !in ["daily", "weekly", "monthly", "quarterly", "yearly"] ==> l == "Monthly"
  {
    if frequency == "daily" then "Daily"
    else if frequency == "weekly" then "Weekly"
    else if frequency == "monthly" then "Monthly"
    else if frequency == "quarterly" then "Quarterly"
    else if frequency == "yearly" then "Yearly"
    else "Monthly"
  }

  /** The five stored frequencies get five different labels. */
  lemma FrequencyLabelsDistinct(f1: Frequency, f2: Frequency)
    ensures f1 != f2 ==> FrequencyLabel(f1.Name()) != FrequencyLabel(f2.Name())
  {
  }

  /** `scopeActive`: the KPIs whose status is `active`, in order. */
  function ActiveOnly(kpis: seq<Kpi>): (r: seq<Kpi>)
    ensures |r| <= |kpis|
    ensures forall k :: k in r <==> k in kpis && k.status == Active
    decreases |kpis|
  {
    if |kpis| == 0 then []
    else (if kpis[0].status == Active then [kpis[0]] else []) + ActiveOnly(kpis[1..])
  }

  /** `scopeByCategory`: the KPIs of one category. */
  function ByCategory(kpis: seq<Kpi>, category: string): (r: seq<Kpi>)
    ensures |r| <= |kpis|
    ensures forall k :: k in r <==> k in kpis && k.category == category
    decreases |kpis|
  {
    if |kpis| == 0 then []
    else (if kpis[0].category == category then [kpis[0]] else []) + ByCategory(kpis[1..], category)
  }

  /** `scopeByUser`: the KPIs of one owner. */
  function ByUser(kpis: seq<Kpi>, userId: nat): (r: seq<Kpi>)
    ensures |r| <= |kpis|
    ensures forall k :: k in r <==> k in kpis && k.userId == userId
    decreases |kpis|
  {
    if |kpis| == 0 then []
    else (if kpis[0].userId == userId then [kpis[0]] else []) + ByUser(kpis[1..], userId)
  }

  /** `scopeByProject`: the KPIs of one project; one without a project never matches. */
  function ByProject(kpis: seq<Kpi>, projectId: nat): (r: seq<Kpi>)
    ensures |r| <= |kpis|
    ensures forall k :: k in r <==> k in kpis && k.projectId == Some(projectId)
    decreases |kpis|
  {
    if |kpis| == 0 then []
    else (if kpis[0].projectId == Some(projectId) then [kpis[0]] else []) + ByProject(kpis[1..], projectId)
  }

  /** Chaining `byProject()` and `byCategory()` gives the same rows, in the same order, either way round. */
  lemma {:induction false} CategoryWithinProject(kpis: seq<Kpi>, category: string, projectId: nat)
    ensures ByCategory(ByProject(kpis, projectId), category) == ByProject(ByCategory(kpis, category), projectId)
    decreases |kpis|
  {
    if |kpis| > 0 {
      CategoryWithinProject(kpis[1..], category, projectId);
      var h := kpis[0];
      var a := if h.projectId == Some(projectId) then [h] else [];
      var b := if h.category == category then [h] else [];
      CategoryAppend(a, ByProject(kpis[1..], projectId), category);
      ProjectAppend(b, ByCategory(kpis[1..], category), projectId);
      assert ByCategory(a, category) == ByProject(b, projectId);
    }
  }

  lemma {:induction false} CategoryAppend(a: seq<Kpi>, b: seq<Kpi>, category: string)
    ensures ByCategory(a + b, category) == ByCategory(a, category) + ByCategory(b, category)
    decreases |a|
  {
    if |a| == 0 {
      assert a + b == b;
    } else {
      assert (a + b)[1..] == a[1..] + b;
      CategoryAppend(a[1..], b, category);
    }
  }

  lemma {:induction false} ProjectAppend(a: seq<Kpi>, b: seq<Kpi>, projectId: nat)
    ensures ByProject(a + b, projectId) == ByProject(a, projectId) + ByProject(b, projectId)
    decreases |a|
  {
    if |a| == 0 {
      assert a + b == b;
    } else {
      assert (a + b)[1..] == a[1..] + b;
      ProjectAppend(a[1..], b, projectId);
    }
  }

  /** Index of the KPI with this id (`Kpi::find($id)`). */
  function Find(rows: seq<Kpi>, id: nat): (o: Option<nat>)
    ensures o.Some? ==> o.value < |rows| && rows[o.value].id == id
    ensures o.None? <==> forall i :: 0 <= i < |rows| ==> rows[i].id != id
    decreases |rows|
  {
    if |rows| == 0 then None
    else if rows[0].id == id then Some(0)
    else match Find(rows[1..], id)
      case None => None
      case Some(j) => Some(j + 1)
  }

  /** The `kpis` table: rows in id order and the next auto-increment id. */
  class KpiTable {
    var rows: seq<Kpi>
    var nextId: nat

    ghost predicate Valid()
      reads this
    {
      (forall i :: 0 <= i < |rows| ==> rows[i].id < nextId)
      && (forall i, j :: 0 <= i < j < |rows| ==> rows[i].id < rows[j].id)
    }

    constructor ()
      ensures Valid() && rows == [] && nextId == 1
    {
      rows := [];
      nextId := 1;
    }

    /** `Kpi::create`: the new row gets the next id and the status column default `active`. */
    method Create(row: Kpi) returns (k: Kpi)
      requires Valid()
      modifies this
      ensures Valid()
      ensures k == row.(id := old(nextId), status := Active)
      ensures rows == old(rows) + [k] && nextId == old(nextId) + 1
    {
      k := row.(id := nextId, status := Active);
      rows := rows + [k];
      nextId := nextId + 1;
    }

    /** `$kpi->update(...)`: one row is overwritten in place, keeping its id. */
    method Replace(i: nat, row: Kpi)
      requires Valid() && i < |rows| && row.id == rows[i].id
      modifies this
      ensures Valid() && nextId == old(nextId)
      ensures rows == old(rows)[i := row]
    {
      rows := rows[i := row];
    }

    /**
     * `updateCurrentValue($value)`: saves the value and nothing else; unlike a
     * key result, reaching the target does not complete the KPI.
     */
    method UpdateCurrentValue(i: nat, value: real)
      requires Valid() && i < |rows|
      modifies this
      ensures Valid() && nextId == old(nextId)
      ensures rows == old(rows)[i := old(rows[i]).(current := value)]
      ensures rows[i].status == old(rows[i]).status
    {
      rows := rows[i := rows[i].(current := value)];
    }
  }
}
