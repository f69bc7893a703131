/**
 * A key result of an OKR (app/Models/KeyResult.php): its progress towards a
 * target, the tier predicates over that progress, the active scope, and
 * `updateCurrentValue`, which writes the row and can auto-complete it.
 */
module KeyResultModel {
  import opened Common
  import Metric

  /** The `status` enum column of `key_results` (default `active`). */
  datatype KrStatus = Active | Completed | Cancelled
  {
    function Name(): string
    {
      match this
      case Active => "active"
      case Completed => "completed"
      case Cancelled => "cancelled"
    }
  }

  /** One row of `key_results`; the decimal columns are exact reals. */
  datatype KeyResult = KeyResult(
    id: nat,
    okrId: nat,
    title: string,
    description: Option<string>,
    unit: string,
    target: real,
    current: real,
    baseline: real,
    direction: Metric.Direction,
    status: KrStatus,
    weight: int)

  /** The progress accessor does not divide by zero. */
  predicate HasProgress(kr: KeyResult)
  {
    Metric.Defined(kr.target, kr.baseline)
  }

  /** `progress`: the clamped share of the way from baseline to target. */
  function Progress(kr: KeyResult): (p: real)
    requires HasProgress(kr)
    ensures 0.0 <= p <= 100.0
    ensures kr.target == 0.0 ==> p == 0.0
    ensures kr.target != 0.0 && kr.current == kr.baseline ==> p == 0.0
    ensures kr.target != 0.0 && kr.current == kr.target ==> p == 100.0
  {
    if kr.target != 0.0 then
      Metric.EndPoints(kr.target, kr.baseline);
      Metric.LinearProgress(kr.target, kr.current, kr.baseline)
    else
      Metric.LinearProgress(kr.target, kr.current, kr.baseline)
  }

  predicate IsCompleted(kr: KeyResult)
    requires HasProgress(kr)
  {
    Progress(kr) >= 100.0
  }

  predicate IsOnTrack(kr: KeyResult)
    requires HasProgress(kr)
  {
    Progress(kr) >= 80.0
  }

  predicate IsAtRisk(kr: KeyResult)
    requires HasProgress(kr)
  {
    Progress(kr) >= 60.0 && Progress(kr) < 80.0
  }

  predicate IsBehind(kr: KeyResult)
    requires HasProgress(kr)
  {
    Progress(kr) < 60.0
  }

  /**
   * The three pacing predicates split every progress value: at risk and
   * behind never overlap, exactly one of on track / at risk / behind holds,
   * and a completed key result is also on track.
   */
  lemma TierPredicatesPartition(kr: KeyResult)
    requires HasProgress(kr)
    ensures !(IsAtRisk(kr) && IsBehind(kr))
    ensures !(IsOnTrack(kr) && IsAtRisk(kr)) && !(IsOnTrack(kr) && IsBehind(kr))
    ensures IsOnTrack(kr) || IsAtRisk(kr) || IsBehind(kr)
    ensures IsCompleted(kr) ==> IsOnTrack(kr)
  {
  }

  /** `completion_status`: the first of completed, on_track, at_risk, behind that applies. */
  function CompletionStatus(kr: KeyResult): (t: Metric.Tier)
    requires HasProgress(kr)
    ensures Metric.InTier(t, Progress(kr))
    ensures t == Metric.Tier.Completed <==> IsCompleted(kr)
    ensures t == Metric.Tier.OnTrack <==> IsOnTrack(kr) && !IsCompleted(kr)
    ensures t == Metric.Tier.AtRisk <==> IsAtRisk(kr)
    ensures t == Metric.Tier.Behind <==> IsBehind(kr)
  {
    if IsCompleted(kr) then Metric.Tier.Completed
    else if IsOnTrack(kr) then Metric.Tier.OnTrack
    else if IsAtRisk(kr) then Metric.Tier.AtRisk
    else Metric.Tier.Behind
  }

  /** `status_color`, on the raw column text; anything unlisted is gray. */
  function StatusColor(status: string): (c: string)
    ensures status == "active" ==> c == "green"
    ensures status == "completed" ==> c == "blue"
    ensures status == "cancelled" ==> c == "red"
    ensures c == "gray" <==> status !in ["active", "completed", "cancelled"]
  {
    if status == "active" then "green"
    else if status == "completed" then "blue"
    else if status == "cancelled" then "red"
    else "gray"
  }

  /** The three stored statuses get three different colours, none of them gray. */
  lemma StatusColorsDistinct(s1: KrStatus, s2: KrStatus)
    ensures StatusColor(s1.Name()) != "gray"
    ensures s1 != s2 ==> StatusColor(s1.Name()) != StatusColor(s2.Name())
  {
  }

  /** `scopeActive`: the key results whose status is `active`, in their original order. */
  function ActiveOnly(krs: seq<KeyResult>): (r: seq<KeyResult>)
    ensures |r| <= |krs|
    ensures forall kr :: kr in r <==> kr in krs && kr.status == Active
    decreases |krs|
  {
    if |krs| == 0 then []
    else (if krs[0].status == Active then [krs[0]] else []) + ActiveOnly(krs[1..])
  }

  /** Filtering a concatenation filters each part. */
  lemma {:induction false} ActiveOnlyAppend(a: seq<KeyResult>, b: seq<KeyResult>)
    ensures ActiveOnly(a + b) == ActiveOnly(a) + ActiveOnly(b)
    decreases |a|
  {
    if |a| == 0 {
      assert a + b == b;
    } else {
      assert (a + b)[1..] == a[1..] + b;
      ActiveOnlyAppend(a[1..], b);
    }
  }

  /** `scopeByOkr` / the `keyResults` relation: the rows that belong to one OKR, in order. */
  function OfOkr(rows: seq<KeyResult>, okrId: nat): (r: seq<KeyResult>)
    ensures |r| <= |rows|
    ensures forall kr :: kr in r <==> kr in rows && kr.okrId == okrId
    decreases |rows|
  {
    if |rows| == 0 then []
    else (if rows[0].okrId == okrId then [rows[0]] else []) + OfOkr(rows[1..], okrId)
  }

  /** The row `updateCurrentValue($value)` leaves when progress can be computed. */
  function WithCurrentValue(kr: KeyResult, value: real): (r: KeyResult)
    requires HasProgress(kr)
    ensures HasProgress(r)
    ensures r.current == value
    ensures r == kr.(current := value, status := r.status)
    ensures IsCompleted(r) ==> r.status == Completed
    ensures !IsCompleted(r) ==> r.status == kr.status
  {
    var moved := kr.(current := value);
    if Progress(moved) >= 100.0 then moved.(status := Completed) else moved
  }

  /**
   * Auto-completion only ever moves a status to `completed`: a completed key
   * result stays completed whatever value is written, and a cancelled one
   * is revived as completed once its target is reached.
   */
  lemma AutoCompleteIsOneWay(kr: KeyResult, value: real)
    requires HasProgress(kr)
    ensures kr.status == Completed ==> WithCurrentValue(kr, value).status == Completed
    ensures WithCurrentValue(kr, value).status != kr.status ==>
      WithCurrentValue(kr, value).status == Completed
  {
  }

  /** First index of the key result with this id belonging to this OKR (`where okr_id … where id … first()`). */
  function FindInOkr(rows: seq<KeyResult>, okrId: nat, id: nat): (o: Option<nat>)
    ensures o.Some? ==> o.value < |rows| && rows[o.value].okrId == okrId && rows[o.value].id == id
    ensures o.None? <==> forall i :: 0 <= i < |rows| ==> !(rows[i].okrId == okrId && rows[i].id == id)
    decreases |rows|
  {
    if |rows| == 0 then None
    else if rows[0].okrId == okrId && rows[0].id == id then Some(0)
    else match FindInOkr(rows[1..], okrId, id)
      case None => None
      case Some(j) => Some(j + 1)
  }

  /** The `key_results` table: rows in id order and the next auto-increment id. */
  class KeyResultTable {
    var rows: seq<KeyResult>
    var nextId: nat

    ghost predicate Valid()
      reads this
    {
      (forall i :: 0 <= i < |rows| ==> rows[i].id < nextId)
      && (forall i, j :: 0 <= i < j < |rows| ==> rows[i].id < rows[j].id)
    }

    constructor ()
      ensures Valid() && rows == [] && nextId == 1
    {
      rows := [];
      nextId := 1;
    }

    /** `KeyResult::create`: the new row gets the next id and the status column default `active`. */
    method Create(row: KeyResult) returns (kr: KeyResult)
      requires Valid()
      modifies this
      ensures Valid()
      ensures kr == row.(id := old(nextId), status := Active)
      ensures rows == old(rows) + [kr] && nextId == old(nextId) + 1
    {
      kr := row.(id := nextId, status := Active);
      rows := rows + [kr];
      nextId := nextId + 1;
    }

    /**
     * `updateCurrentValue($value)`: the new value is saved first; then, when
     * the progress reaches 100, a second save marks the row completed.
     * When target equals a non-zero baseline the progress read throws a
     * DivisionByZeroError after the value was saved: `ok` is false and only
     * the value has changed.
     */
    method UpdateCurrentValue(i: nat, value: real) returns (ok: bool)
      requires Valid() && i < |rows|
      modifies this
      ensures Valid() && nextId == old(nextId)
      ensures ok == HasProgress(old(rows[i]))
      ensures ok ==> rows == old(rows)[i := WithCurrentValue(old(rows[i]), value)]
      ensures !ok ==> rows == old(rows)[i := old(rows[i]).(current := value)]
    {
      rows := rows[i := rows[i].(current := value)];
      if !HasProgress(rows[i]) {
        return false;
      }
      if Progress(rows[i]) >= 100.0 {
        rows := rows[i := rows[i].(status := Completed)];
      }
      ok := true;
    }
  }
}
