/**
 * An objective and its key results (app/Models/Okr.php): the weighted mean of
 * the active key results' progress, the pacing test against elapsed time,
 * the tier of the overall progress, and the label maps.
 */
module OkrModel {
  import opened Common
  import PhpMath
  import Metric
  import KR = KeyResultModel

  datatype OkrType = Company | Team | Individual
  {
    function Name(): string
    {
      match this
      case Company => "company"
      case Team => "team"
      case Individual => "individual"
    }
  }

  /** The `status` enum column of `okrs` (default `active`). */
  datatype OkrStatus = Active | Completed | Cancelled
  {
    function Name(): string
    {
      match this
      case Active => "active"
      case Completed => "completed"
      case Cancelled => "cancelled"
    }
  }

  /** One row of `okrs`; dates are day numbers. */
  datatype Okr = Okr(
    id: nat,
    userId: nat,
    projectId: Option<nat>,
    objective: string,
    description: Option<string>,
    category: string,
    okrType: OkrType,
    status: OkrStatus,
    startDate: int,
    endDate: Option<int>)

  /** Every active key result has a computable progress, so the roll-up does not throw. */
  predicate ActiveHaveProgress(krs: seq<KR.KeyResult>)
  {
    forall kr :: kr in krs && kr.status == KR.Active ==> KR.HasProgress(kr)
  }

  predicate AllHaveProgress(krs: seq<KR.KeyResult>)
  {
    forall kr :: kr in krs ==> KR.HasProgress(kr)
  }

  /** One summand of the roll-up: a key result's progress and its weight. */
  datatype Term = Term(progress: real, weight: int)

  function Terms(krs: seq<KR.KeyResult>): (ts: seq<Term>)
    requires AllHaveProgress(krs)
    ensures |ts| == |krs|
    ensures forall i :: 0 <= i < |ts| ==> ts[i] == Term(KR.Progress(krs[i]), krs[i].weight)
    decreases |krs|
  {
    if |krs| == 0 then []
    else [Term(KR.Progress(krs[0]), krs[0].weight)] + Terms(krs[1..])
  }

  /** The terms the roll-up sums: one per active key result. */
  function ActiveTerms(keyResults: seq<KR.KeyResult>): (ts: seq<Term>)
    requires ActiveHaveProgress(keyResults)
    ensures |ts| == |KR.ActiveOnly(keyResults)|
  {
    Terms(KR.ActiveOnly(keyResults))
  }

  /** Σ progress·weight. */
  function WeightedSum(ts: seq<Term>): real
    decreases |ts|
  {
    if |ts| == 0 then 0.0 else ts[0].progress * ts[0].weight as real + WeightedSum(ts[1..])
  }

  /** Σ weight. */
  function TotalWeight(ts: seq<Term>): int
    decreases |ts|
  {
    if |ts| == 0 then 0 else ts[0].weight + TotalWeight(ts[1..])
  }

  /**
   * `overall_progress`: Σ(progress·weight)/Σweight over the active key
   * results only, 0 when there are none or when their weights sum to 0 or less.
   */
  function OverallProgress(keyResults: seq<KR.KeyResult>): (p: real)
    requires ActiveHaveProgress(keyResults)
    ensures |KR.ActiveOnly(keyResults)| == 0 ==> p == 0.0
    ensures TotalWeight(ActiveTerms(keyResults)) <= 0 ==> p == 0.0
    ensures TotalWeight(ActiveTerms(keyResults)) > 0 ==>
      p == Quotient(WeightedSum(ActiveTerms(keyResults)), TotalWeight(ActiveTerms(keyResults)))
  {
    var terms := ActiveTerms(keyResults);
    if |terms| == 0 then 0.0
    else
      var total := TotalWeight(terms);
      if total > 0 then Quotient(WeightedSum(terms), total) else 0.0
  }

  /** `sum / total` for a positive total: the q with q·total = sum. */
  function Quotient(sum: real, total: int): (q: real)
    requires total > 0
    ensures q * total as real == sum
  {
    PhpMath.DivMul(sum, total as real);
    sum / total as real
  }

  /** One step of the weighted sum keeps it between lo and hi times the weight. */
  lemma StepBounds(p: real, w: real, s: real, t: real, lo: real, hi: real)
    requires w >= 0.0 && lo <= p <= hi && lo * t <= s <= hi * t
    ensures lo * (w + t) <= p * w + s <= hi * (w + t)
  {
    assert lo * w <= p * w <= hi * w;
    assert lo * (w + t) == lo * w + lo * t;
    assert hi * (w + t) == hi * w + hi * t;
  }

  /** With non-negative weights, lo·Σw <= Σ progress·w <= hi·Σw. */
  lemma {:induction false} WeightedSumBounds(ts: seq<Term>, lo: real, hi: real)
    requires forall i :: 0 <= i < |ts| ==> ts[i].weight >= 0 && lo <= ts[i].progress <= hi
    ensures lo * TotalWeight(ts) as real <= WeightedSum(ts) <= hi * TotalWeight(ts) as real
    decreases |ts|
  {
    if |ts| > 0 {
      WeightedSumBounds(ts[1..], lo, hi);
      StepBounds(ts[0].progress, ts[0].weight as real, WeightedSum(ts[1..]), TotalWeight(ts[1..]) as real, lo, hi);
    }
  }

  predicate WeightsNonNegative(krs: seq<KR.KeyResult>)
  {
    forall kr :: kr in krs && kr.status == KR.Active ==> kr.weight >= 0
  }

  /** Every term has a non-negative weight and a progress in [lo, hi]. */
  predicate TermsWithin(ts: seq<Term>, lo: real, hi: real)
  {
    forall i :: 0 <= i < |ts| ==> ts[i].weight >= 0 && lo <= ts[i].progress <= hi
  }

  /** The terms of the active key results carry their weights and progresses. */
  lemma ActiveTermsWithin(keyResults: seq<KR.KeyResult>, lo: real, hi: real)
    requires ActiveHaveProgress(keyResults) && WeightsNonNegative(keyResults)
    requires forall kr :: kr in keyResults && kr.status == KR.Active ==> lo <= KR.Progress(kr) <= hi
    ensures TermsWithin(ActiveTerms(keyResults), lo, hi)
  {
    var active := KR.ActiveOnly(keyResults);
    var ts := ActiveTerms(keyResults);
    forall i | 0 <= i < |ts|
      ensures ts[i].weight >= 0 && lo <= ts[i].progress <= hi
    {
      assert active[i] in active;
    }
  }

  /** The weighted mean Σ progress·w / Σw of terms in [lo, hi] lies in [lo, hi]. */
  lemma MeanBetween(ts: seq<Term>, lo: real, hi: real)
    requires TermsWithin(ts, lo, hi) && TotalWeight(ts) > 0
    ensures lo <= Quotient(WeightedSum(ts), TotalWeight(ts)) <= hi
  {
    var s := WeightedSum(ts);
    var p, t := Quotient(s, TotalWeight(ts)), TotalWeight(ts) as real;
    WeightedSumBounds(ts, lo, hi);
    assert p * t == s;
    assert lo * t <= p * t <= hi * t;
    PositiveFactorCancels(lo, p, t);
    PositiveFactorCancels(p, hi, t);
  }

  /**
   * The weighted mean lies between the least and the greatest progress of the
   * active key results, whenever their total weight is positive.
   */
  lemma OverallProgressBetween(keyResults: seq<KR.KeyResult>, lo: real, hi: real)
    requires ActiveHaveProgress(keyResults) && WeightsNonNegative(keyResults)
    requires TotalWeight(ActiveTerms(keyResults)) > 0
    requires forall kr :: kr in keyResults && kr.status == KR.Active ==> lo <= KR.Progress(kr) <= hi
    ensures lo <= OverallProgress(keyResults) <= hi
  {
    var ts := ActiveTerms(keyResults);
    ActiveTermsWithin(keyResults, lo, hi);
    MeanBetween(ts, lo, hi);
  }

  lemma PositiveFactorCancels(a: real, b: real, t: real)
    requires t > 0.0 && a * t <= b * t
    ensures a <= b
  {
  }

  /** With non-negative weights the overall progress is always a percentage in [0, 100]. */
  lemma OverallProgressInRange(keyResults: seq<KR.KeyResult>)
    requires ActiveHaveProgress(keyResults) && WeightsNonNegative(keyResults)
    ensures 0.0 <= OverallProgress(keyResults) <= 100.0
  {
    if TotalWeight(ActiveTerms(keyResults)) > 0 {
      OverallProgressBetween(keyResults, 0.0, 100.0);
    }
  }

  /** A key result at 100 with weight 3 and one at 50 with weight 1 average to 87.5. */
  lemma WeightedMeanExample()
    ensures
      var a := KR.KeyResult(1, 1, "a", None, "%", 100.0, 100.0, 0.0, Metric.Increase, KR.Active, 3);
      var b := KR.KeyResult(2, 1, "b", None, "%", 100.0, 50.0, 0.0, Metric.Increase, KR.Active, 1);
      ActiveHaveProgress([a, b]) && OverallProgress([a, b]) == 87.5
  {
    var a := KR.KeyResult(1, 1, "a", None, "%", 100.0, 100.0, 0.0, Metric.Increase, KR.Active, 3);
    var b := KR.KeyResult(2, 1, "b", None, "%", 100.0, 50.0, 0.0, Metric.Increase, KR.Active, 1);
    assert KR.Progress(b) == 50.0 by {
      assert Metric.Ratio(100.0, 50.0, 0.0) == 50.0;
    }
    assert [a, b][1..] == [b];
    assert [b][1..] == [];
    assert KR.ActiveOnly([a, b]) == [a, b];
    var ts := ActiveTerms([a, b]);
    assert ts == [Term(100.0, 3), Term(50.0, 1)];
    assert ts[1..] == [Term(50.0, 1)];
    assert ts[1..][1..] == [];
    assert WeightedSum(ts[1..]) == 50.0;
    assert TotalWeight(ts[1..]) == 1;
    assert WeightedSum(ts) == 350.0;
    assert TotalWeight(ts) == 4;
  }

  /** Key results that are not active take no part in the mean. */
  lemma {:induction false} InactiveIgnored(keyResults: seq<KR.KeyResult>, other: KR.KeyResult)
    requires ActiveHaveProgress(keyResults) && other.status != KR.Active
    ensures ActiveHaveProgress(keyResults + [other])
    ensures OverallProgress(keyResults + [other]) == OverallProgress(keyResults)
  {
    KR.ActiveOnlyAppend(keyResults, [other]);
    assert KR.ActiveOnly([other]) == [];
    assert KR.ActiveOnly(keyResults + [other]) == KR.ActiveOnly(keyResults);
  }

  /**
   * When `updateCurrentValue` completes the key result at index i, the OKR's
   * overall progress becomes the mean over the other key results: the
   * completed one drops out of the weighted mean.
   */
  lemma {:induction false} CompletingLeavesTheMean(keyResults: seq<KR.KeyResult>, i: nat, value: real)
    requires i < |keyResults| && AllHaveProgress(keyResults)
    requires KR.WithCurrentValue(keyResults[i], value).status == KR.Completed
    ensures AllHaveProgress(keyResults[i := KR.WithCurrentValue(keyResults[i], value)])
    ensures OverallProgress(keyResults[i := KR.WithCurrentValue(keyResults[i], value)])
         == OverallProgress(keyResults[..i] + keyResults[i + 1..])
  {
    var u := KR.WithCurrentValue(keyResults[i], value);
    var updated := keyResults[i := u];
    assert updated == keyResults[..i] + [u] + keyResults[i + 1..];
    assert AllHaveProgress(updated) by {
      assert forall kr :: kr in updated ==> kr in keyResults || kr == u;
    }
    InactiveDropsOut(keyResults[..i], u, keyResults[i + 1..]);
  }

  /** A key result that is not active can be cut out of a list without changing its active part. */
  lemma InactiveDropsOut(a: seq<KR.KeyResult>, u: KR.KeyResult, b: seq<KR.KeyResult>)
    requires u.status != KR.Active
    ensures KR.ActiveOnly(a + [u] + b) == KR.ActiveOnly(a + b)
  {
    KR.ActiveOnlyAppend(a, [u]);
    assert KR.ActiveOnly([u]) == [];
    assert KR.ActiveOnly(a + [u]) == KR.ActiveOnly(a);
    KR.ActiveOnlyAppend(a + [u], b);
    KR.ActiveOnlyAppend(a, b);
  }

  /**
   * A consequence of counting only active key results: once every key result
   * of an OKR has been completed, its overall progress reads 0 and its
   * completion status reads `behind`.
   */
  lemma AllCompletedReadsZero(keyResults: seq<KR.KeyResult>)
    requires forall kr :: kr in keyResults ==> kr.status == KR.Completed
    ensures ActiveHaveProgress(keyResults)
    ensures OverallProgress(keyResults) == 0.0
    ensures CompletionStatus(keyResults) == Metric.Tier.Behind
  {
    NoneActive(keyResults);
  }

  lemma {:induction false} NoneActive(krs: seq<KR.KeyResult>)
    requires forall kr :: kr in krs ==> kr.status != KR.Active
    ensures KR.ActiveOnly(krs) == []
    decreases |krs|
  {
    if |krs| > 0 {
      assert krs[0] in krs;
      assert forall kr :: kr in krs[1..] ==> kr in krs;
      NoneActive(krs[1..]);
    }
  }

  /** `isOnTrack()`: with no end date the window is 90 days. */
  function IsOnTrack(keyResults: seq<KR.KeyResult>, daysElapsed: int, daysToEnd: Option<int>): (r: Option<bool>)
    requires ActiveHaveProgress(keyResults)
    ensures r.None? <==> (daysToEnd.Some? && daysToEnd.value + daysElapsed == 0)
    ensures daysToEnd.None? ==> r == Metric.OnPace(OverallProgress(keyResults), daysElapsed, 90)
    ensures daysToEnd.Some? ==> r == Metric.OnPace(OverallProgress(keyResults), daysElapsed, daysToEnd.value + daysElapsed)
  {
    Metric.OnPace(OverallProgress(keyResults), daysElapsed, Metric.TotalDays(daysElapsed, daysToEnd, 90))
  }

  /** With no end date, 45 of the 90 default days call for 50 percent. */
  lemma HalfWayWithoutEndDate(keyResults: seq<KR.KeyResult>)
    requires ActiveHaveProgress(keyResults)
    ensures IsOnTrack(keyResults, 45, None) == Some(OverallProgress(keyResults) >= 50.0)
  {
  }

  /** `completion_status`: the 100 / 80 / 60 tiers applied to the overall progress. */
  function CompletionStatus(keyResults: seq<KR.KeyResult>): (t: Metric.Tier)
    requires ActiveHaveProgress(keyResults)
    ensures Metric.InTier(t, OverallProgress(keyResults))
  {
    var p := OverallProgress(keyResults);
    if p >= 100.0 then Metric.Tier.Completed
    else if p >= 80.0 then Metric.Tier.OnTrack
    else if p >= 60.0 then Metric.Tier.AtRisk
    else Metric.Tier.Behind
  }

  /** `status_color`, on the raw column text; anything unlisted is gray. */
  function StatusColor(status: string): (c: string)
    ensures status == "active" ==> c == "green"
    ensures status == "completed" ==> c == "blue"
    ensures status == "cancelled" ==> c == "red"
    ensures c == "gray" <==> status !in ["active", "completed", "cancelled"]
  {
    if status == "active" then "green"
    else if status == "completed" then "blue"
    else if status == "cancelled" then "red"
    else "gray"
  }

  /** `type_label`: capitalised type names; anything unlisted reads `Individual`. */
  function TypeLabel(okrType: string): (l: string)
    ensures okrType == "company" ==> l == "Company"
    ensures okrType == "team" ==> l == "Team"
    ensures okrType !in ["company", "team"] ==> l == "Individual"
  {
    if okrType == "company" then "Company"
    else if okrType == "team" then "Team"
    else "Individual"
  }

  /** The three stored types get three different labels. */
  lemma TypeLabelsDistinct(t1: OkrType, t2: OkrType)
    ensures t1 != t2 ==> TypeLabel(t1.Name()) != TypeLabel(t2.Name())
  {
  }

  /** `scopeActive`: the OKRs whose status is `active`, in order. */
  function ActiveOkrs(okrs: seq<Okr>): (r: seq<Okr>)
    ensures |r| <= |okrs|
    ensures forall o :: o in r <==> o in okrs && o.status == Active
    decreases |okrs|
  {
    if |okrs| == 0 then []
    else (if okrs[0].status == Active then [okrs[0]] else []) + ActiveOkrs(okrs[1..])
  }

  /** `scopeByType`: the OKRs whose `type` column equals the given text. */
  function ByType(okrs: seq<Okr>, okrType: string): (r: seq<Okr>)
    ensures |r| <= |okrs|
    ensures forall o :: o in r <==> o in okrs && o.okrType.Name() == okrType
    decreases |okrs|
  {
    if |okrs| == 0 then []
    else (if okrs[0].okrType.Name() == okrType then [okrs[0]] else []) + ByType(okrs[1..], okrType)
  }

  /** `scopeByUser`: the OKRs of one owner. */
  function ByUser(okrs: seq<Okr>, userId: nat): (r: seq<Okr>)
    ensures |r| <= |okrs|
    ensures forall o :: o in r <==> o in okrs && o.userId == userId
    decreases |okrs|
  {
    if |okrs| == 0 then []
    else (if okrs[0].userId == userId then [okrs[0]] else []) + ByUser(okrs[1..], userId)
  }

  /** `scopeByProject`: the OKRs of one project; one without a project never matches. */
  function ByProject(okrs: seq<Okr>, projectId: nat): (r: seq<Okr>)
    ensures |r| <= |okrs|
    ensures forall o :: o in r <==> o in okrs && o.projectId == Some(projectId)
    decreases |okrs|
  {
    if |okrs| == 0 then []
    else (if okrs[0].projectId == Some(projectId) then [okrs[0]] else []) + ByProject(okrs[1..], projectId)
  }

  /** Chaining `active()` and `byUser()` gives the same rows, in the same order, either way round. */
  lemma {:induction false} ActiveByUserCommute(okrs: seq<Okr>, userId: nat)
    ensures ActiveOkrs(ByUser(okrs, userId)) == ByUser(ActiveOkrs(okrs), userId)
    decreases |okrs|
  {
    if |okrs| > 0 {
      ActiveByUserCommute(okrs[1..], userId);
      var h := okrs[0];
      var a := if h.userId == userId then [h] else [];
      var b := if h.status == Active then [h] else [];
      ActiveAppend(a, ByUser(okrs[1..], userId));
      ByUserAppend(b, ActiveOkrs(okrs[1..]), userId);
      assert ActiveOkrs(a) == ByUser(b, userId);
    }
  }

  lemma {:induction false} ActiveAppend(a: seq<Okr>, b: seq<Okr>)
    ensures ActiveOkrs(a + b) == ActiveOkrs(a) + ActiveOkrs(b)
    decreases |a|
  {
    if |a| == 0 {
      assert a + b == b;
    } else {
      assert (a + b)[1..] == a[1..] + b;
      ActiveAppend(a[1..], b);
    }
  }

  lemma {:induction false} ByUserAppend(a: seq<Okr>, b: seq<Okr>, userId: nat)
    ensures ByUser(a + b, userId) == ByUser(a, userId) + ByUser(b, userId)
    decreases |a|
  {
    if |a| == 0 {
      assert a + b == b;
    } else {
      assert (a + b)[1..] == a[1..] + b;
      ByUserAppend(a[1..], b, userId);
    }
  }

  /** The `okrs` table: rows in id order and the next auto-increment id. */
  class OkrTable {
    var rows: seq<Okr>
    var nextId: nat

    ghost predicate Valid()
      reads this
    {
      (forall i :: 0 <= i < |rows| ==> rows[i].id < nextId)
      && (forall i, j :: 0 <= i < j < |rows| ==> rows[i].id < rows[j].id)
    }

    constructor ()
      ensures Valid() && rows == [] && nextId == 1
    {
      rows := [];
      nextId := 1;
    }

    /** `Okr::create`: the new row gets the next id and the status column default `active`. */
    method Create(row: Okr) returns (o: Okr)
      requires Valid()
      modifies this
      ensures Valid()
      ensures o == row.(id := old(nextId), status := Active)
      ensures rows == old(rows) + [o] && nextId == old(nextId) + 1
    {
      o := row.(id := nextId, status := Active);
      rows := rows + [o];
      nextId := nextId + 1;
    }
  }
}
