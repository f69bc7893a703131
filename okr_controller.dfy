/**
 * The state-changing and counting endpoints of
 * app/Http/Controllers/Api/OkrController.php: `store` (validation, key-result
 * defaults, one transaction), `updateKeyResultValue` and the pacing counts
 * of `stats`. Response codes stand for the JSON responses; every failure
 * inside the `try`, validation included, is answered with 500.
 */
module OkrController {
  import opened Common
  import Metric
  import KR = KeyResultModel
  import opened OkrModel

  /** One element of the `key_results` array of a store request. */
  datatype KeyResultInput = KeyResultInput(
    title: Field<string>,
    description: Field<string>,
    unit: Field<string>,
    target: Field<real>,
    current: Field<real>,
    baseline: Field<real>,
    direction: Field<string>,
    weight: Field<int>)

  /** The body of a store request. */
  datatype OkrInput = OkrInput(
    objective: Field<string>,
    description: Field<string>,
    category: Field<string>,
    okrType: Field<string>,
    startDate: Field<int>,
    endDate: Field<int>,
    projectId: Field<nat>,
    keyResults: Field<seq<KeyResultInput>>)

  const Directions: seq<string> := ["increase", "decrease", "maintain"]
  const Types: seq<string> := ["company", "team", "individual"]

  /** `start_date` required, `end_date` nullable and strictly after it. */
  predicate DatesValid(startDate: Field<int>, endDate: Field<int>)
  {
    startDate.Given?
    && (endDate.Absent? || endDate.Null? || (endDate.Given? && endDate.value > startDate.value))
  }

  /** `project_id`: nullable, and otherwise an existing project id. */
  predicate ProjectValid(projectId: Field<nat>, projectIds: set<nat>)
  {
    projectId.Absent? || projectId.Null? || (projectId.Given? && projectId.value in projectIds)
  }

  /** The `key_results.*` rules. */
  predicate KeyResultInputValid(k: KeyResultInput)
  {
    && RequiredText(k.title, 255)
    && k.description.NullableOk()
    && RequiredText(k.unit, 255)
    && RequiredAtLeast(k.target, 0.0)
    && OptionalAtLeast(k.current, 0.0)
    && OptionalAtLeast(k.baseline, 0.0)
    && RequiredIn(k.direction, Directions)
    && (k.weight.Absent? || k.weight.Null? || (k.weight.Given? && 1 <= k.weight.value <= 10))
  }

  /** The rules of `store`, `key_results` being `required|array|min:1`. */
  predicate OkrInputValid(r: OkrInput, projectIds: set<nat>)
  {
    && RequiredText(r.objective, 255)
    && r.description.NullableOk()
    && RequiredText(r.category, 255)
    && RequiredIn(r.okrType, Types)
    && DatesValid(r.startDate, r.endDate)
    && ProjectValid(r.projectId, projectIds)
    && r.keyResults.Given? && |r.keyResults.value| >= 1
    && forall i :: 0 <= i < |r.keyResults.value| ==> KeyResultInputValid(r.keyResults.value[i])
  }

  function DirectionOf(s: string): (d: Metric.Direction)
    requires s in Directions
    ensures d.Name() == s
  {
    if s == "increase" then Metric.Increase
    else if s == "decrease" then Metric.Decrease
    else Metric.Maintain
  }

  function TypeOf(s: string): (t: OkrType)
    requires s in Types
    ensures t.Name() == s
  {
    if s == "company" then Company else if s == "team" then Team else Individual
  }

  /**
   * The key-result row `store` creates from one validated element: a missing
   * current or baseline value is 0, a missing weight is 1. Its id is
   * assigned on insert.
   */
  function KeyResultRow(okrId: nat, k: KeyResultInput): (kr: KR.KeyResult)
    requires KeyResultInputValid(k)
    ensures kr.okrId == okrId && kr.status == KR.Active
    ensures kr.title == k.title.value && kr.unit == k.unit.value && kr.target == k.target.value
    ensures kr.description == (if k.description.Given? then Some(k.description.value) else None)
    ensures kr.current == (if k.current.Given? then k.current.value else 0.0)
    ensures kr.baseline == (if k.baseline.Given? then k.baseline.value else 0.0)
    ensures kr.weight == (if k.weight.Given? then k.weight.value else 1)
    ensures kr.direction.Name() == k.direction.value
    ensures kr.target >= 0.0 && kr.current >= 0.0 && kr.baseline >= 0.0 && 1 <= kr.weight <= 10
  {
    KR.KeyResult(0, okrId, k.title.value,
      if k.description.Given? then Some(k.description.value) else None,
      k.unit.value, k.target.value, k.current.OrElse(0.0), k.baseline.OrElse(0.0),
      DirectionOf(k.direction.value), KR.Active, k.weight.OrElse(1))
  }

  /** The rows the creation loop inserts, with consecutive ids from `firstId`. */
  function KeyResultRows(okrId: nat, ks: seq<KeyResultInput>, firstId: nat): (rows: seq<KR.KeyResult>)
    requires forall i :: 0 <= i < |ks| ==> KeyResultInputValid(ks[i])
    ensures |rows| == |ks|
    ensures forall i :: 0 <= i < |ks| ==> rows[i] == KeyResultRow(okrId, ks[i]).(id := firstId + i)
    decreases |ks|
  {
    if |ks| == 0 then []
    else
      var rest := KeyResultRows(okrId, ks[1..], firstId + 1);
      assert forall i :: 1 <= i < |ks| ==> ks[1..][i - 1] == ks[i];
      [KeyResultRow(okrId, ks[0]).(id := firstId)] + rest
  }

  /** Every key result `store` creates has a weight of at least 1, so its OKR's total weight is positive. */
  lemma {:induction false} StoredWeightsPositive(okrId: nat, ks: seq<KeyResultInput>, firstId: nat)
    requires forall i :: 0 <= i < |ks| ==> KeyResultInputValid(ks[i])
    ensures WeightsNonNegative(KeyResultRows(okrId, ks, firstId))
    ensures forall kr :: kr in KeyResultRows(okrId, ks, firstId) ==> 1 <= kr.weight <= 10
    ensures |ks| > 0 ==> |KR.ActiveOnly(KeyResultRows(okrId, ks, firstId))| == |ks|
  {
    var rows := KeyResultRows(okrId, ks, firstId);
    assert forall kr :: kr in rows ==> exists i :: 0 <= i < |rows| && rows[i] == kr;
    AllActiveKept(rows);
  }

  lemma {:induction false} AllActiveKept(rows: seq<KR.KeyResult>)
    requires forall i :: 0 <= i < |rows| ==> rows[i].status == KR.Active
    ensures KR.ActiveOnly(rows) == rows
    decreases |rows|
  {
    if |rows| > 0 {
      AllActiveKept(rows[1..]);
    }
  }

  /** The `okrs` row `store` creates; the owner is the first user. */
  function OkrRow(userId: nat, r: OkrInput): (o: Okr)
    requires r.objective.Given? && r.category.Given? && r.startDate.Given?
    requires RequiredIn(r.okrType, Types)
    requires (r.description.Null? || r.description.Given? || r.description.Absent?)
    requires (r.endDate.Null? || r.endDate.Given? || r.endDate.Absent?)
    requires !r.projectId.Malformed?
    ensures o.userId == userId && o.status == Active
    ensures o.objective == r.objective.value && o.category == r.category.value
    ensures o.okrType.Name() == r.okrType.value && o.startDate == r.startDate.value
    ensures o.description == (if r.description.Given? then Some(r.description.value) else None)
    ensures o.endDate == (if r.endDate.Given? then Some(r.endDate.value) else None)
    ensures o.projectId == (if r.projectId.Given? then Some(r.projectId.value) else None)
  {
    Okr(0, userId,
      if r.projectId.Given? then Some(r.projectId.value) else None,
      r.objective.value,
      if r.description.Given? then Some(r.description.value) else None,
      r.category.value, TypeOf(r.okrType.value), Active, r.startDate.value,
      if r.endDate.Given? then Some(r.endDate.value) else None)
  }

  /**
   * The response code of `store` as the code is written: it reads
   * `$validated['description']` and `$validated['end_date']` unguarded, and
   * a nullable key the client left out is missing from `$validated`, so the
   * read raises an ErrorException and the transaction is rolled back.
   */
  function StoreCodeAsWritten(r: OkrInput, projectIds: set<nat>, firstUser: Option<nat>): (code: int)
    ensures code == 201 <==>
      OkrInputValid(r, projectIds) && firstUser.Some? && !r.description.Absent? && !r.endDate.Absent?
    ensures code == 404 <==> OkrInputValid(r, projectIds) && firstUser.None?
  {
    if !OkrInputValid(r, projectIds) then 500
    else if firstUser.None? then 404
    else if r.description.Absent? || r.endDate.Absent? then 500
    else 201
  }

  /** A valid request with one key result and no description or end date, as a client would send it. */
  function MinimalRequest(): (r: OkrInput)
    ensures OkrInputValid(r, {})
  {
    var k := KeyResultInput(Given("Signups"), Absent, Given("users"), Given(100.0), Absent, Absent,
                            Given("increase"), Absent);
    OkrInput(Given("Grow"), Absent, Given("growth"), Given("team"), Given(10), Absent, Absent, Given([k]))
  }

  /** As written, that valid request is refused with 500 although a user exists. */
  lemma OmittedOptionalKeysFailAsWritten()
    ensures StoreCodeAsWritten(MinimalRequest(), {}, Some(1)) == 500
  {
  }

  /**
   * `store`, with the unsent optional keys read as null: validation failure
   * gives 500 and a missing user 404, both with no change; otherwise the OKR
   * and each of its key results are created in order and 201 is returned.
   * Either everything is inserted or nothing is.
   */
  method Store(okrs: OkrTable, krs: KR.KeyResultTable, r: OkrInput, projectIds: set<nat>,
               firstUser: Option<nat>) returns (code: int)
    requires okrs.Valid() && krs.Valid()
    modifies okrs, krs
    ensures okrs.Valid() && krs.Valid()
    ensures !OkrInputValid(r, projectIds) ==> code == 500
    ensures OkrInputValid(r, projectIds) && firstUser.None? ==> code == 404
    ensures OkrInputValid(r, projectIds) && firstUser.Some? ==> code == 201
    ensures code != 201 ==>
      && okrs.rows == old(okrs.rows) && okrs.nextId == old(okrs.nextId)
      && krs.rows == old(krs.rows) && krs.nextId == old(krs.nextId)
    ensures code == 201 ==>
      && okrs.rows == old(okrs.rows) + [OkrRow(firstUser.value, r).(id := old(okrs.nextId))]
      && krs.rows == old(krs.rows) + KeyResultRows(old(okrs.nextId), r.keyResults.value, old(krs.nextId))
  {
    if !OkrInputValid(r, projectIds) {
      return 500;
    }
    if firstUser.None? {
      return 404;
    }
    var okr := okrs.Create(OkrRow(firstUser.value, r));
    CreateKeyResults(krs, okr.id, r.keyResults.value);
    code := 201;
  }

  /** The creation loop of `store`: one key-result row per element, in order. */
  method CreateKeyResults(krs: KR.KeyResultTable, okrId: nat, ks: seq<KeyResultInput>)
    requires krs.Valid() && forall j :: 0 <= j < |ks| ==> KeyResultInputValid(ks[j])
    modifies krs
    ensures krs.Valid() && krs.nextId == old(krs.nextId) + |ks|
    ensures krs.rows == old(krs.rows) + KeyResultRows(okrId, ks, old(krs.nextId))
  {
    var i := 0;
    while i < |ks|
      invariant 0 <= i <= |ks|
      invariant krs.Valid()
      invariant krs.nextId == old(krs.nextId) + i
      invariant krs.rows == old(krs.rows) + KeyResultRows(okrId, ks[..i], old(krs.nextId))
    {
      var created := krs.Create(KeyResultRow(okrId, ks[i]));
      CreatedRowExtends(okrId, ks, i, old(krs.nextId), old(krs.rows), created);
      i := i + 1;
    }
    assert ks[..i] == ks;
  }

  lemma KeyResultRowsSnoc(okrId: nat, ks: seq<KeyResultInput>, i: nat, firstId: nat)
    requires i < |ks| && forall j :: 0 <= j < |ks| ==> KeyResultInputValid(ks[j])
    ensures KeyResultRows(okrId, ks[..i + 1], firstId)
         == KeyResultRows(okrId, ks[..i], firstId) + [KeyResultRow(okrId, ks[i]).(id := firstId + i)]
  {
    var a := KeyResultRows(okrId, ks[..i + 1], firstId);
    var b := KeyResultRows(okrId, ks[..i], firstId) + [KeyResultRow(okrId, ks[i]).(id := firstId + i)];
    assert |a| == |b|;
    forall j | 0 <= j < |a| ensures a[j] == b[j] {
      assert ks[..i + 1][j] == ks[j];
      if j < i {
        assert ks[..i][j] == ks[j];
        assert b[j] == KeyResultRows(okrId, ks[..i], firstId)[j];
      }
    }
  }

  /** The row `create` inserts for `ks[i]` extends the rows of `ks[..i]` to those of `ks[..i + 1]`. */
  lemma CreatedRowExtends(okrId: nat, ks: seq<KeyResultInput>, i: nat, firstId: nat,
                          before: seq<KR.KeyResult>, created: KR.KeyResult)
    requires i < |ks| && forall j :: 0 <= j < |ks| ==> KeyResultInputValid(ks[j])
    requires created == KeyResultRow(okrId, ks[i]).(id := firstId + i, status := KR.Active)
    ensures before + KeyResultRows(okrId, ks[..i], firstId) + [created]
         == before + KeyResultRows(okrId, ks[..i + 1], firstId)
  {
    KeyResultRowsSnoc(okrId, ks, i, firstId);
    assert created == KeyResultRow(okrId, ks[i]).(id := firstId + i);
  }

  /** Under the corrected reading the request refused as written is stored. */
  lemma OmittedOptionalKeysStoredAsNull(userId: nat)
    ensures OkrRow(userId, MinimalRequest()).description == None
    ensures OkrRow(userId, MinimalRequest()).endDate == None
  {
  }

  /**
   * `updateKeyResultValue`: a missing, malformed or negative value gives 500;
   * a key result that does not exist or belongs to another OKR gives 404 and
   * nothing changes; otherwise the key result's `updateCurrentValue` runs,
   * and a division by zero in its progress also ends in 500.
   */
  method UpdateKeyResultValue(krs: KR.KeyResultTable, okrId: nat, keyResultId: nat, value: Field<real>)
    returns (code: int)
    requires krs.Valid()
    modifies krs
    ensures krs.Valid() && krs.nextId == old(krs.nextId)
    ensures !RequiredAtLeast(value, 0.0) ==> code == 500 && krs.rows == old(krs.rows)
    ensures RequiredAtLeast(value, 0.0) && KR.FindInOkr(old(krs.rows), okrId, keyResultId).None? ==>
      code == 404 && krs.rows == old(krs.rows)
    ensures RequiredAtLeast(value, 0.0) && KR.FindInOkr(old(krs.rows), okrId, keyResultId).Some? ==>
      var i := KR.FindInOkr(old(krs.rows), okrId, keyResultId).value;
      && (code == 200 <==> KR.HasProgress(old(krs.rows)[i]))
      && (code == 200 || code == 500)
      && (code == 200 ==> krs.rows == old(krs.rows)[i := KR.WithCurrentValue(old(krs.rows)[i], value.value)])
      && (code == 500 ==> krs.rows == old(krs.rows)[i := old(krs.rows)[i].(current := value.value)])
  {
    if !RequiredAtLeast(value, 0.0) {
      return 500;
    }
    match KR.FindInOkr(krs.rows, okrId, keyResultId)
    case None =>
      return 404;
    case Some(i) =>
      var ok := krs.UpdateCurrentValue(i, value.value);
      code := if ok then 200 else 500;
  }

  /** The figures `stats` reports besides its group counts. */
  datatype OkrStats = OkrStats(total: nat, active: nat, completed: nat, onTrack: nat, atRisk: nat)

  /** How many OKRs have status `completed`. */
  function CountCompleted(okrs: seq<Okr>): (n: nat)
    ensures n <= |okrs|
    ensures n == 0 <==> forall i :: 0 <= i < |okrs| ==> okrs[i].status != Completed
    ensures n == |okrs| <==> forall i :: 0 <= i < |okrs| ==> okrs[i].status == Completed
    decreases |okrs|
  {
    if |okrs| == 0 then 0 else (if okrs[0].status == Completed then 1 else 0) + CountCompleted(okrs[1..])
  }

  /** `isOnTrack()` of one OKR on day `today`, with Carbon's `diffInDays` as a parameter. */
  /**
   * `None` is the DivisionByZeroError of an active key result whose target
   * equals its baseline, or of a zero-day window.
   */
  function PaceOf(o: Okr, krRows: seq<KR.KeyResult>, today: int, diffInDays: (int, int) -> int): (r: Option<bool>)
    ensures !ActiveHaveProgress(KR.OfOkr(krRows, o.id)) ==> r.None?
    ensures ActiveHaveProgress(KR.OfOkr(krRows, o.id)) ==>
      (r.None? <==> o.endDate.Some? && diffInDays(today, o.endDate.value) + diffInDays(today, o.startDate) == 0)
    ensures ActiveHaveProgress(KR.OfOkr(krRows, o.id)) && o.endDate.None? ==>
      r == Metric.OnPace(OverallProgress(KR.OfOkr(krRows, o.id)), diffInDays(today, o.startDate), 90)
    ensures ActiveHaveProgress(KR.OfOkr(krRows, o.id)) && o.endDate.Some? ==>
      r == Metric.OnPace(OverallProgress(KR.OfOkr(krRows, o.id)), diffInDays(today, o.startDate),
                         diffInDays(today, o.endDate.value) + diffInDays(today, o.startDate))
  {
    if !ActiveHaveProgress(KR.OfOkr(krRows, o.id)) then None
    else
      IsOnTrack(KR.OfOkr(krRows, o.id), diffInDays(today, o.startDate),
        match o.endDate
        case Some(e) => Some(diffInDays(today, e))
        case None => None)
  }

  predicate RollUpsDefined(okrs: seq<Okr>, krRows: seq<KR.KeyResult>)
  {
    forall o :: o in okrs && o.status == Active ==> ActiveHaveProgress(KR.OfOkr(krRows, o.id))
  }

  /** The `isOnTrack()` answers of the active OKRs, in table order. */
  function ActivePaces(okrs: seq<Okr>, krRows: seq<KR.KeyResult>, today: int, diffInDays: (int, int) -> int)
    : (paces: seq<Option<bool>>)
    ensures |paces| == |ActiveOkrs(okrs)|
    ensures forall i :: 0 <= i < |paces| ==> paces[i] == PaceOf(ActiveOkrs(okrs)[i], krRows, today, diffInDays)
  {
    var active := ActiveOkrs(okrs);
    seq(|active|, i requires 0 <= i < |active| => PaceOf(active[i], krRows, today, diffInDays))
  }

  /**
   * `stats`: `on_track` and `at_risk` filter the same active list by
   * `isOnTrack()` and its negation, so they count its `Some(true)` and
   * `Some(false)` answers and add up to `active`. `None` is
   * the 500 answer when one pacing test divides by zero.
   */
  function Stats(okrs: seq<Okr>, krRows: seq<KR.KeyResult>, today: int, diffInDays: (int, int) -> int)
    : (r: Option<OkrStats>)
    ensures r.Some? ==> r.value.total == |okrs| && r.value.active == |ActiveOkrs(okrs)|
    ensures r.Some? ==> r.value.completed == CountCompleted(okrs)
    ensures r.Some? ==>
      var paces := ActivePaces(okrs, krRows, today, diffInDays);
      r.value.onTrack == multiset(paces)[Some(true)] && r.value.atRisk == multiset(paces)[Some(false)]
    ensures r.Some? ==> r.value.onTrack + r.value.atRisk == r.value.active
    ensures r.Some? ==> r.value.active + r.value.completed <= r.value.total
    ensures r.None? <==> exists i :: 0 <= i < |ActiveOkrs(okrs)| && PaceOf(ActiveOkrs(okrs)[i], krRows, today, diffInDays).None?
    ensures RollUpsDefined(okrs, krRows) && (forall o :: o in okrs ==> o.endDate.None?) ==> r.Some?
  {
    var active := ActiveOkrs(okrs);
    var paces := ActivePaces(okrs, krRows, today, diffInDays);
    ActiveAndCompletedDisjoint(okrs);
    match Metric.CountPaces(paces)
    case None => None
    case Some((on, off)) => Some(OkrStats(|okrs|, |active|, CountCompleted(okrs), on, off))
  }

  /**
   * An active OKR with an active key result whose target equals its
   * baseline makes `stats` answer 500, whatever the other rows hold.
   */
  lemma StatsFailsOnUndefinedRollUp(okrs: seq<Okr>, krRows: seq<KR.KeyResult>, today: int, diffInDays: (int, int) -> int)
    requires !RollUpsDefined(okrs, krRows)
    ensures Stats(okrs, krRows, today, diffInDays).None?
  {
    var o :| o in okrs && o.status == Active && !ActiveHaveProgress(KR.OfOkr(krRows, o.id));
    var active := ActiveOkrs(okrs);
    assert o in active;
    var i :| 0 <= i < |active| && active[i] == o;
    assert PaceOf(active[i], krRows, today, diffInDays).None?;
  }

  lemma {:induction false} ActiveAndCompletedDisjoint(okrs: seq<Okr>)
    ensures |ActiveOkrs(okrs)| + CountCompleted(okrs) <= |okrs|
    decreases |okrs|
  {
    if |okrs| > 0 {
      ActiveAndCompletedDisjoint(okrs[1..]);
    }
  }
}
