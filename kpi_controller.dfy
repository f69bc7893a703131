/**
 * The state-changing and counting endpoints of
 * app/Http/Controllers/Api/KpiController.php: `store`, `update`,
 * `updateValue` and the pacing counts of `stats`. Every failure inside the
 * `try`, validation included, is answered with 500.
 */
module KpiController {
  import opened Common
  import Metric
  import opened KpiModel

  /** The body of a store request. */
  datatype KpiInput = KpiInput(
    name: Field<string>,
    description: Field<string>,
    category: Field<string>,
    unit: Field<string>,
    target: Field<real>,
    current: Field<real>,
    baseline: Field<real>,
    frequency: Field<string>,
    direction: Field<string>,
    startDate: Field<int>,
    endDate: Field<int>,
    projectId: Field<nat>)

  const Frequencies: seq<string> := ["daily", "weekly", "monthly", "quarterly", "yearly"]
  const Directions: seq<string> := ["increase", "decrease", "maintain"]
  const Statuses: seq<string> := ["active", "paused", "completed", "cancelled"]

  /** `end_date`: nullable, and otherwise strictly after the `start_date` of the same request. */
  predicate EndAfterStart(startDate: Field<int>, endDate: Field<int>)
  {
    endDate.Absent? || endDate.Null? || (endDate.Given? && startDate.Given? && endDate.value > startDate.value)
  }

  /**
   * `end_date` on update: nullable, and strictly after `start_date` when the
   * request also sends one. With no `start_date` in the request the rule
   * compares against null and passes, so the stored start date is not consulted.
   */
  predicate EndAfterSentStart(startDate: Field<int>, endDate: Field<int>)
  {
    endDate.Absent? || endDate.Null? || (endDate.Given? && (startDate.Absent? || (startDate.Given? && endDate.value > startDate.value)))
  }

  /** `project_id`: nullable, and otherwise an existing project id. */
  predicate ProjectValid(projectId: Field<nat>, projectIds: set<nat>)
  {
    projectId.Absent? || projectId.Null? || (projectId.Given? && projectId.value in projectIds)
  }

  /** The rules of `store`. */
  predicate KpiInputValid(r: KpiInput, projectIds: set<nat>)
  {
    && RequiredText(r.name, 255)
    && r.description.NullableOk()
    && RequiredText(r.category, 255)
    && RequiredText(r.unit, 255)
    && RequiredAtLeast(r.target, 0.0)
    && OptionalAtLeast(r.current, 0.0)
    && OptionalAtLeast(r.baseline, 0.0)
    && RequiredIn(r.frequency, Frequencies)
    && RequiredIn(r.direction, Directions)
    && r.startDate.Given?
    && EndAfterStart(r.startDate, r.endDate)
    && ProjectValid(r.projectId, projectIds)
  }

  function FrequencyOf(s: string): (f: Frequency)
    requires s in Frequencies
    ensures f.Name() == s
  {
    if s == "daily" then Daily
    else if s == "weekly" then Weekly
    else if s == "monthly" then Monthly
    else if s == "quarterly" then Quarterly
    else Yearly
  }

  function DirectionOf(s: string): (d: Metric.Direction)
    requires s in Directions
    ensures d.Name() == s
  {
    if s == "increase" then Metric.Increase
    else if s == "decrease" then Metric.Decrease
    else Metric.Maintain
  }

  function StatusOf(s: string): (st: KpiStatus)
    requires s in Statuses
    ensures st.Name() == s
  {
    if s == "active" then Active
    else if s == "paused" then Paused
    else if s == "completed" then Completed
    else Cancelled
  }

  /**
   * The `kpis` row `store` creates from a validated request: a missing
   * current or baseline value is 0, the optional keys that were not sent
   * are null. Its id and status are assigned on insert.
   */
  function KpiRow(userId: nat, r: KpiInput, projectIds: set<nat>): (k: Kpi)
    requires KpiInputValid(r, projectIds)
    ensures k.userId == userId && k.name == r.name.value && k.unit == r.unit.value
    ensures k.target == r.target.value && k.startDate == r.startDate.value
    ensures k.current == (if r.current.Given? then r.current.value else 0.0)
    ensures k.baseline == (if r.baseline.Given? then r.baseline.value else 0.0)
    ensures k.target >= 0.0 && k.current >= 0.0 && k.baseline >= 0.0
    ensures k.frequency.Name() == r.frequency.value && k.direction.Name() == r.direction.value
    ensures k.category == r.category.value && k.status == Active
    ensures k.description.Some? <==> r.description.Given?
    ensures r.description.Given? ==> k.description.value == r.description.value
    ensures k.endDate.Some? <==> r.endDate.Given?
    ensures r.endDate.Given? ==> k.endDate.value == r.endDate.value && k.endDate.value > k.startDate
    ensures k.projectId.Some? <==> r.projectId.Given?
    ensures r.projectId.Given? ==> k.projectId.value == r.projectId.value && k.projectId.value in projectIds
  {
    Kpi(0, userId,
      if r.projectId.Given? then Some(r.projectId.value) else None,
      r.name.value,
      if r.description.Given? then Some(r.description.value) else None,
      r.category.value, r.unit.value, r.target.value,
      r.current.OrElse(0.0), r.baseline.OrElse(0.0),
      FrequencyOf(r.frequency.value), DirectionOf(r.direction.value), Active,
      r.startDate.value,
      if r.endDate.Given? then Some(r.endDate.value) else None)
  }

  /**
   * The response code of `store` as the code is written: `$validated['description']`
   * and `$validated['end_date']` are read unguarded, so leaving either optional
   * key out raises an ErrorException before the insert.
   */
  function StoreCodeAsWritten(r: KpiInput, projectIds: set<nat>, firstUser: Option<nat>): (code: int)
    ensures code == 201 <==>
      KpiInputValid(r, projectIds) && firstUser.Some? && !r.description.Absent? && !r.endDate.Absent?
    ensures code == 404 <==> KpiInputValid(r, projectIds) && firstUser.None?
  {
    if !KpiInputValid(r, projectIds) then 500
    else if firstUser.None? then 404
    else if r.description.Absent? || r.endDate.Absent? then 500
    else 201
  }

  /** A valid request without the optional keys. */
  function MinimalRequest(): (r: KpiInput)
    ensures KpiInputValid(r, {})
  {
    KpiInput(Given("Uptime"), Absent, Given("ops"), Given("%"), Given(99.0), Absent, Absent,
             Given("monthly"), Given("increase"), Given(10), Absent, Absent)
  }

  /** As written, that valid request is refused with 500 although a user exists. */
  lemma OmittedOptionalKeysFailAsWritten()
    ensures StoreCodeAsWritten(MinimalRequest(), {}, Some(1)) == 500
  {
  }

  /** Under the corrected reading the unsent keys are stored as null and the defaults apply. */
  lemma OmittedOptionalKeysStoredAsNull(userId: nat)
    ensures KpiRow(userId, MinimalRequest(), {}).description == None
    ensures KpiRow(userId, MinimalRequest(), {}).endDate == None
    ensures KpiRow(userId, MinimalRequest(), {}).current == 0.0
    ensures KpiRow(userId, MinimalRequest(), {}).baseline == 0.0
  {
  }

  /**
   * `store`, with unsent optional keys read as null: a failed validation
   * gives 500 and a missing user 404, with no change; otherwise one row is
   * inserted and 201 returned.
   */
  method Store(kpis: KpiTable, r: KpiInput, projectIds: set<nat>, firstUser: Option<nat>)
    returns (code: int)
    requires kpis.Valid()
    modifies kpis
    ensures kpis.Valid()
    ensures !KpiInputValid(r, projectIds) ==> code == 500
    ensures KpiInputValid(r, projectIds) && firstUser.None? ==> code == 404
    ensures code != 201 ==> kpis.rows == old(kpis.rows) && kpis.nextId == old(kpis.nextId)
    ensures KpiInputValid(r, projectIds) && firstUser.Some? ==>
      code == 201 && kpis.rows == old(kpis.rows) + [KpiRow(firstUser.value, r, projectIds).(id := old(kpis.nextId))]
  {
    if !KpiInputValid(r, projectIds) {
      return 500;
    }
    if firstUser.None? {
      return 404;
    }
    var created := kpis.Create(KpiRow(firstUser.value, r, projectIds));
    code := 201;
  }

  /** The body of an update request; every key is optional. */
  datatype KpiPatch = KpiPatch(
    name: Field<string>,
    description: Field<string>,
    category: Field<string>,
    unit: Field<string>,
    target: Field<real>,
    current: Field<real>,
    baseline: Field<real>,
    frequency: Field<string>,
    direction: Field<string>,
    status: Field<string>,
    startDate: Field<int>,
    endDate: Field<int>,
    projectId: Field<nat>)

  /** The rules of `update`; `status` must be one of the four enum values when sent. */
  predicate KpiPatchValid(p: KpiPatch, projectIds: set<nat>)
  {
    && SometimesText(p.name, 255)
    && p.description.NullableOk()
    && SometimesText(p.category, 255)
    && SometimesText(p.unit, 255)
    && (p.target.Absent? || RequiredAtLeast(p.target, 0.0))
    && OptionalAtLeast(p.current, 0.0)
    && OptionalAtLeast(p.baseline, 0.0)
    && SometimesIn(p.frequency, Frequencies)
    && SometimesIn(p.direction, Directions)
    && SometimesIn(p.status, Statuses)
    && (p.startDate.Absent? || p.startDate.Given?)
    && EndAfterSentStart(p.startDate, p.endDate)
    && ProjectValid(p.projectId, projectIds)
  }

  /** The update's `status` rule accepts exactly the four stored statuses. */
  lemma StatusRuleAcceptsExactlyTheEnum(s: string)
    ensures SometimesIn(Given(s), Statuses) <==> exists st: KpiStatus :: st.Name() == s
  {
    if s in Statuses {
      assert StatusOf(s).Name() == s;
    }
  }

  /** `current_value` and `baseline_value` are NOT NULL columns: a null for either fails at the database. */
  predicate PatchStorable(p: KpiPatch)
  {
    !p.current.Null? && !p.baseline.Null?
  }

  /** A sent `frequency` replaces the stored one. */
  function PatchFrequency(f: Field<string>, current: Frequency): (r: Frequency)
    requires SometimesIn(f, Frequencies)
    ensures f.Absent? ==> r == current
    ensures f.Given? ==> r.Name() == f.value
  {
    if f.Given? then FrequencyOf(f.value) else current
  }

  /** A sent `direction` replaces the stored one. */
  function PatchDirection(f: Field<string>, current: Metric.Direction): (r: Metric.Direction)
    requires SometimesIn(f, Directions)
    ensures f.Absent? ==> r == current
    ensures f.Given? ==> r.Name() == f.value
  {
    if f.Given? then DirectionOf(f.value) else current
  }

  /** A sent `status` replaces the stored one. */
  function PatchStatus(f: Field<string>, current: KpiStatus): (r: KpiStatus)
    requires SometimesIn(f, Statuses)
    ensures f.Absent? ==> r == current
    ensures f.Given? ==> r.Name() == f.value
  {
    if f.Given? then StatusOf(f.value) else current
  }

  /** `$kpi->update($validated)`: every key that was sent overwrites its column, the rest are kept. */
  function Patched(k: Kpi, p: KpiPatch, projectIds: set<nat>): (r: Kpi)
    requires KpiPatchValid(p, projectIds) && PatchStorable(p)
    ensures r.id == k.id && r.userId == k.userId
    ensures p.projectId.Absent? ==> r.projectId == k.projectId
    ensures p.projectId.Null? ==> r.projectId.None?
    ensures p.projectId.Given? ==> r.projectId == Some(p.projectId.value) && p.projectId.value in projectIds
    ensures p.name.Given? ==> r.name == p.name.value
    ensures !p.name.Given? ==> r.name == k.name
    ensures p.description.Absent? ==> r.description == k.description
    ensures p.description.Null? ==> r.description.None?
    ensures p.description.Given? ==> r.description == Some(p.description.value)
    ensures p.category.Given? ==> r.category == p.category.value
    ensures !p.category.Given? ==> r.category == k.category
    ensures p.unit.Given? ==> r.unit == p.unit.value
    ensures !p.unit.Given? ==> r.unit == k.unit
    ensures p.target.Given? ==> r.target == p.target.value && r.target >= 0.0
    ensures !p.target.Given? ==> r.target == k.target
    ensures p.current.Given? ==> r.current == p.current.value && r.current >= 0.0
    ensures !p.current.Given? ==> r.current == k.current
    ensures p.baseline.Given? ==> r.baseline == p.baseline.value && r.baseline >= 0.0
    ensures !p.baseline.Given? ==> r.baseline == k.baseline
    ensures p.frequency.Given? ==> r.frequency.Name() == p.frequency.value
    ensures !p.frequency.Given? ==> r.frequency == k.frequency
    ensures p.direction.Given? ==> r.direction.Name() == p.direction.value
    ensures !p.direction.Given? ==> r.direction == k.direction
    ensures p.status.Given? ==> r.status.Name() == p.status.value
    ensures !p.status.Given? ==> r.status == k.status
    ensures p.startDate.Given? ==> r.startDate == p.startDate.value
    ensures !p.startDate.Given? ==> r.startDate == k.startDate
    ensures p.endDate.Absent? ==> r.endDate == k.endDate
    ensures p.endDate.Null? ==> r.endDate.None?
    ensures p.endDate.Given? ==> r.endDate == Some(p.endDate.value)
    ensures p.endDate.Given? && p.startDate.Given? ==> r.endDate.value > r.startDate
  {
    Kpi(k.id, k.userId,
      p.projectId.OverNullable(k.projectId),
      p.name.OrElse(k.name),
      p.description.OverNullable(k.description),
      p.category.OrElse(k.category),
      p.unit.OrElse(k.unit),
      p.target.OrElse(k.target),
      p.current.OrElse(k.current),
      p.baseline.OrElse(k.baseline),
      PatchFrequency(p.frequency, k.frequency),
      PatchDirection(p.direction, k.direction),
      PatchStatus(p.status, k.status),
      p.startDate.OrElse(k.startDate),
      p.endDate.OverNullable(k.endDate))
  }

  /** A request that sends no key leaves the row as it was. */
  lemma EmptyPatchChangesNothing(k: Kpi, projectIds: set<nat>)
    ensures var p := KpiPatch(Absent, Absent, Absent, Absent, Absent, Absent, Absent, Absent, Absent,
                              Absent, Absent, Absent, Absent);
      KpiPatchValid(p, projectIds) && PatchStorable(p) && Patched(k, p, projectIds) == k
  {
  }

  /**
   * An end date sent without a start date is accepted even when it falls
   * before the stored start date, and it is written as sent.
   */
  lemma EndDateAloneSkipsStoredStart(k: Kpi, end: int)
    requires end <= k.startDate
    ensures var p := KpiPatch(Absent, Absent, Absent, Absent, Absent, Absent, Absent, Absent, Absent,
                              Absent, Absent, Given(end), Absent);
      KpiPatchValid(p, {}) && PatchStorable(p)
      && Patched(k, p, {}).endDate == Some(end) && Patched(k, p, {}).startDate == k.startDate
      && Patched(k, p, {}).endDate.value <= Patched(k, p, {}).startDate
  {
  }

  /** Sent together, an end date on or before the start date breaks the update's rule. */
  lemma EndDateNotAfterSentStartRejected(p: KpiPatch, projectIds: set<nat>)
    requires p.startDate.Given? && p.endDate.Given? && p.endDate.value <= p.startDate.value
    ensures !KpiPatchValid(p, projectIds)
  {
  }

  /**
   * `update`: an unknown id gives 404; a request breaking a rule, or one
   * that sends null for a NOT NULL value column, gives 500; in each case
   * nothing changes. Otherwise the row is patched and 200 returned.
   */
  method Update(kpis: KpiTable, id: nat, p: KpiPatch, projectIds: set<nat>) returns (code: int)
    requires kpis.Valid()
    modifies kpis
    ensures kpis.Valid() && kpis.nextId == old(kpis.nextId)
    ensures Find(old(kpis.rows), id).None? ==> code == 404
    ensures code != 200 ==> kpis.rows == old(kpis.rows)
    ensures Find(old(kpis.rows), id).Some? ==>
      var i := Find(old(kpis.rows), id).value;
      if KpiPatchValid(p, projectIds) && PatchStorable(p)
      then code == 200 && kpis.rows == old(kpis.rows)[i := Patched(old(kpis.rows)[i], p, projectIds)]
      else code == 500
  {
    match Find(kpis.rows, id)
    case None =>
      return 404;
    case Some(i) =>
      if !KpiPatchValid(p, projectIds) || !PatchStorable(p) {
        return 500;
      }
      kpis.Replace(i, Patched(kpis.rows[i], p, projectIds));
      code := 200;
  }

  /**
   * `updateValue`: a missing, malformed or negative value gives 500 and an
   * unknown id 404, with no change; otherwise only the value changes.
   */
  method UpdateValue(kpis: KpiTable, id: nat, value: Field<real>) returns (code: int)
    requires kpis.Valid()
    modifies kpis
    ensures kpis.Valid() && kpis.nextId == old(kpis.nextId)
    ensures !RequiredAtLeast(value, 0.0) ==> code == 500 && kpis.rows == old(kpis.rows)
    ensures RequiredAtLeast(value, 0.0) && Find(old(kpis.rows), id).None? ==>
      code == 404 && kpis.rows == old(kpis.rows)
    ensures RequiredAtLeast(value, 0.0) && Find(old(kpis.rows), id).Some? ==>
      var i := Find(old(kpis.rows), id).value;
      code == 200 && kpis.rows == old(kpis.rows)[i := old(kpis.rows)[i].(current := value.value)]
  {
    if !RequiredAtLeast(value, 0.0) {
      return 500;
    }
    match Find(kpis.rows, id)
    case None =>
      return 404;
    case Some(i) =>
      kpis.UpdateCurrentValue(i, value.value);
      code := 200;
  }

  /** The figures `stats` reports besides its group counts. */
  datatype KpiStats = KpiStats(total: nat, active: nat, completed: nat, onTrack: nat, atRisk: nat)

  /** How many KPIs have status `completed`. */
  function CountCompleted(kpis: seq<Kpi>): (n: nat)
    ensures n <= |kpis|
    ensures n == 0 <==> forall i :: 0 <= i < |kpis| ==> kpis[i].status != Completed
    ensures n == |kpis| <==> forall i :: 0 <= i < |kpis| ==> kpis[i].status == Completed
    decreases |kpis|
  {
    if |kpis| == 0 then 0 else (if kpis[0].status == Completed then 1 else 0) + CountCompleted(kpis[1..])
  }

  /** No KPI is counted both as active and as completed. */
  lemma {:induction false} ActiveAndCompletedDisjoint(kpis: seq<Kpi>)
    ensures |ActiveOnly(kpis)| + CountCompleted(kpis) <= |kpis|
    decreases |kpis|
  {
    if |kpis| > 0 {
      ActiveAndCompletedDisjoint(kpis[1..]);
    }
  }

  /**
   * `isOnTrack()` of one KPI on day `today`, with Carbon's `diffInDays` as a
   * parameter. `None` is the DivisionByZeroError of a target equal to a
   * non-zero baseline, or of a zero-day window.
   */
  function PaceOf(k: Kpi, today: int, diffInDays: (int, int) -> int): (r: Option<bool>)
    ensures !HasProgress(k) ==> r.None?
    ensures HasProgress(k) ==>
      (r.None? <==> k.endDate.Some? && diffInDays(today, k.endDate.value) + diffInDays(today, k.startDate) == 0)
    ensures HasProgress(k) && k.endDate.None? ==>
      r == Metric.OnPace(Progress(k), diffInDays(today, k.startDate), 30)
    ensures HasProgress(k) && k.endDate.Some? ==>
      r == Metric.OnPace(Progress(k), diffInDays(today, k.startDate),
                         diffInDays(today, k.endDate.value) + diffInDays(today, k.startDate))
  {
    if !HasProgress(k) then None
    else
      IsOnTrack(k, diffInDays(today, k.startDate),
        match k.endDate
        case Some(e) => Some(diffInDays(today, e))
        case None => None)
  }

  /** Every active KPI has a defined progress. */
  predicate ActiveHaveProgress(kpis: seq<Kpi>)
  {
    forall k :: k in kpis && k.status == Active ==> HasProgress(k)
  }

  /** The `isOnTrack()` answers of the active KPIs, in table order. */
  function ActivePaces(kpis: seq<Kpi>, today: int, diffInDays: (int, int) -> int): (paces: seq<Option<bool>>)
    ensures |paces| == |ActiveOnly(kpis)|
    ensures forall i :: 0 <= i < |paces| ==> paces[i] == PaceOf(ActiveOnly(kpis)[i], today, diffInDays)
  {
    var active := ActiveOnly(kpis);
    seq(|active|, i requires 0 <= i < |active| => PaceOf(active[i], today, diffInDays))
  }

  /**
   * `stats`: `on_track` and `at_risk` filter the same active list by
   * `isOnTrack()` and its negation, so they count its `Some(true)` and
   * `Some(false)` answers and add up to `active`. `None` is the 500 answer
   * when one pacing test divides by zero.
   */
  function Stats(kpis: seq<Kpi>, today: int, diffInDays: (int, int) -> int): (r: Option<KpiStats>)
    ensures r.Some? ==> r.value.total == |kpis| && r.value.active == |ActiveOnly(kpis)|
    ensures r.Some? ==> r.value.completed == CountCompleted(kpis)
    ensures r.Some? ==>
      var paces := ActivePaces(kpis, today, diffInDays);
      r.value.onTrack == multiset(paces)[Some(true)] && r.value.atRisk == multiset(paces)[Some(false)]
    ensures r.Some? ==> r.value.onTrack + r.value.atRisk == r.value.active
    ensures r.Some? ==> r.value.active + r.value.completed <= r.value.total
    ensures r.None? <==> exists i :: 0 <= i < |ActiveOnly(kpis)| && PaceOf(ActiveOnly(kpis)[i], today, diffInDays).None?
    ensures ActiveHaveProgress(kpis) && (forall k :: k in kpis ==> k.endDate.None?) ==> r.Some?
  {
    var active := ActiveOnly(kpis);
    var paces := ActivePaces(kpis, today, diffInDays);
    ActiveAndCompletedDisjoint(kpis);
    match Metric.CountPaces(paces)
    case None => None
    case Some((on, off)) => Some(KpiStats(|kpis|, |active|, CountCompleted(kpis), on, off))
  }

  /** An active KPI whose target equals its non-zero baseline makes `stats` answer 500. */
  lemma StatsFailsOnUndefinedProgress(kpis: seq<Kpi>, today: int, diffInDays: (int, int) -> int)
    requires !ActiveHaveProgress(kpis)
    ensures Stats(kpis, today, diffInDays).None?
  {
    var k :| k in kpis && k.status == Active && !HasProgress(k);
    var active := ActiveOnly(kpis);
    assert k in active;
    var i :| 0 <= i < |active| && active[i] == k;
    assert PaceOf(active[i], today, diffInDays).None?;
  }

  /** A KPI that `store` accepts, with target 5 equal to baseline 5, has no pacing answer. */
  lemma StoredFlatKpiHasNoPace(userId: nat, today: int, diffInDays: (int, int) -> int)
    ensures var r := KpiInput(Given("Uptime"), Given("flat"), Given("ops"), Given("%"), Given(5.0), Absent, Given(5.0),
                              Given("monthly"), Given("increase"), Given(10), Given(20), Absent);
      KpiInputValid(r, {}) && PaceOf(KpiRow(userId, r, {}), today, diffInDays).None?
  {
  }
}
