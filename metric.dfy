/**
 * The progress formula and the four completion tiers shared by key results,
 * OKRs and KPIs. Both KeyResult.php and Kpi.php spell out the same clamped
 * linear interpolation; it is defined once here.
 */
module Metric {
  import opened Common
  import opened PhpMath

  /**
   * The progress division is guarded only against a zero target; a target
   * equal to a non-zero baseline divides by zero (a PHP DivisionByZeroError).
   */
  predicate Defined(target: real, baseline: real)
  {
    target == 0.0 || target != baseline
  }

  /** The raw, unclamped percentage of the way from baseline to target. */
  function Ratio(target: real, current: real, baseline: real): real
    requires target != baseline
  {
    ((current - baseline) / (target - baseline)) * 100.0
  }

  /**
   * `min(max($progress, 0), 100)` over the raw ratio, or 0 for a zero target.
   * The direction field plays no part.
   */
  function LinearProgress(target: real, current: real, baseline: real): (p: real)
    requires Defined(target, baseline)
    ensures 0.0 <= p <= 100.0
    ensures target == 0.0 ==> p == 0.0
    ensures target != 0.0 && 0.0 <= Ratio(target, current, baseline) <= 100.0 ==>
      p == Ratio(target, current, baseline)
    ensures target != 0.0 && Ratio(target, current, baseline) < 0.0 ==> p == 0.0
    ensures target != 0.0 && Ratio(target, current, baseline) > 100.0 ==> p == 100.0
  {
    if target == 0.0 then 0.0 else Min(Max(Ratio(target, current, baseline), 0.0), 100.0)
  }

  /** At the baseline the progress is 0, at the target it is 100 (for a non-zero target). */
  lemma EndPoints(target: real, baseline: real)
    requires target != 0.0 && target != baseline
    ensures LinearProgress(target, baseline, baseline) == 0.0
    ensures LinearProgress(target, target, baseline) == 100.0
  {
    assert (target - baseline) / (target - baseline) == 1.0;
    assert Ratio(target, target, baseline) == 100.0;
  }

  /**
   * A falling target is measured the same way as a rising one: baseline 6,
   * target 2, current 3 is three quarters of the way, 75.
   */
  lemma FallingTargetExample()
    ensures LinearProgress(2.0, 3.0, 6.0) == 75.0
  {
    assert Ratio(2.0, 3.0, 6.0) == 75.0;
  }

  /**
   * Moving the current value towards the target never lowers the progress,
   * whichever side of the baseline the target lies on.
   */
  lemma {:induction false} MonotoneTowardsTarget(target: real, baseline: real, c1: real, c2: real)
    requires target != 0.0 && target != baseline
    requires (target > baseline && c1 <= c2) || (target < baseline && c1 >= c2)
    ensures LinearProgress(target, c1, baseline) <= LinearProgress(target, c2, baseline)
  {
    var d := target - baseline;
    if d > 0.0 {
      assert (c1 - baseline) / d <= (c2 - baseline) / d;
    } else {
      assert (c1 - baseline) / d <= (c2 - baseline) / d by {
        assert (baseline - c1) / (-d) <= (baseline - c2) / (-d);
      }
    }
    assert Ratio(target, c1, baseline) <= Ratio(target, c2, baseline);
  }

  /** The four completion tiers, with the threshold order 100, 80, 60. */
  datatype Tier = Completed | OnTrack | AtRisk | Behind
  {
    /** The string the accessors return. */
    function Name(): string
    {
      match this
      case Completed => "completed"
      case OnTrack => "on_track"
      case AtRisk => "at_risk"
      case Behind => "behind"
    }
  }

  /** The band of progress values each tier stands for. */
  predicate InTier(t: Tier, p: real)
  {
    match t
    case Completed => p >= 100.0
    case OnTrack => 80.0 <= p < 100.0
    case AtRisk => 60.0 <= p < 80.0
    case Behind => p < 60.0
  }

  /** The bands are disjoint: a progress value has at most one tier. */
  lemma TierUnique(t1: Tier, t2: Tier, p: real)
    requires InTier(t1, p) && InTier(t2, p)
    ensures t1 == t2
  {
  }

  /** Different tiers report different strings. */
  lemma TierNamesDistinct(t1: Tier, t2: Tier)
    requires t1.Name() == t2.Name()
    ensures t1 == t2
  {
    assert t1.Name()[0] == t2.Name()[0];
    if t1.Name()[0] == 'a' || t1.Name()[0] == 'b' {
    } else {
      assert t1.Name()[1] == t2.Name()[1];
    }
  }

  /** The `direction` enum column shared by key results and KPIs. */
  datatype Direction = Increase | Decrease | Maintain
  {
    function Name(): string
    {
      match this
      case Increase => "increase"
      case Decrease => "decrease"
      case Maintain => "maintain"
    }
  }

  /** `direction_icon`: a rising arrow, a falling arrow, or a flat one for maintain and anything else. */
  function DirectionIcon(direction: string): (icon: string)
    ensures direction == "increase" ==> icon == "\U{2197}\U{FE0F}"
    ensures direction == "decrease" ==> icon == "\U{2198}\U{FE0F}"
    ensures direction != "increase" && direction != "decrease" ==> icon == "\U{2192}"
  {
    if direction == "increase" then "\U{2197}\U{FE0F}"
    else if direction == "decrease" then "\U{2198}\U{FE0F}"
    else "\U{2192}"
  }

  /** The three stored directions get three different icons. */
  lemma DirectionIconsDistinct(d1: Direction, d2: Direction)
    ensures d1 != d2 ==> DirectionIcon(d1.Name()) != DirectionIcon(d2.Name())
  {
  }

  /** The pacing test's day count: days to the end plus days elapsed, or a default window. */
  function TotalDays(daysElapsed: int, daysToEnd: Option<int>, window: int): (t: int)
    ensures daysToEnd.None? ==> t == window
    ensures daysToEnd.Some? ==> t - daysElapsed == daysToEnd.value
  {
    match daysToEnd
    case Some(d) => d + daysElapsed
    case None => window
  }

  /**
   * progress >= elapsed/total·100; `None` stands for the DivisionByZeroError
   * PHP raises when the total is 0.
   */
  function OnPace(progress: real, daysElapsed: int, totalDays: int): (r: Option<bool>)
    ensures r.None? <==> totalDays == 0
    ensures totalDays > 0 ==> r == Some(progress * totalDays as real >= daysElapsed as real * 100.0)
    ensures totalDays < 0 ==> r == Some(progress * totalDays as real <= daysElapsed as real * 100.0)
  {
    if totalDays == 0 then None
    else
      var expected := (daysElapsed as real / totalDays as real) * 100.0;
      assert totalDays > 0 ==> (progress >= expected <==> progress * totalDays as real >= daysElapsed as real * 100.0) by {
        if totalDays > 0 {
          ScaledCompare(progress, daysElapsed as real, totalDays as real);
        }
      }
      assert totalDays < 0 ==> (progress >= expected <==> progress * totalDays as real <= daysElapsed as real * 100.0) by {
        if totalDays < 0 {
          ScaledCompareNegative(progress, daysElapsed as real, totalDays as real);
        }
      }
      Some(progress >= expected)
  }

  lemma ScaledCompare(p: real, e: real, t: real)
    requires t > 0.0
    ensures p >= (e / t) * 100.0 <==> p * t >= e * 100.0
  {
    assert ((e / t) * 100.0) * t == e * 100.0;
  }

  /** Multiplying through by a negative window turns the comparison round. */
  lemma ScaledCompareNegative(p: real, e: real, t: real)
    requires t < 0.0
    ensures p >= (e / t) * 100.0 <==> p * t <= e * 100.0
  {
  }

  /**
   * A window that ends before it starts makes the expected share negative
   * once any day has elapsed, so every non-negative progress is on pace.
   */
  lemma NegativeWindowAlwaysOnPace(progress: real, daysElapsed: int, totalDays: int)
    requires progress >= 0.0 && daysElapsed >= 0 && totalDays < 0
    ensures OnPace(progress, daysElapsed, totalDays) == Some(true)
  {
  }

  /** At the start of the window nothing is expected yet: any progress is on pace. */
  lemma OnPaceAtStart(progress: real, totalDays: int)
    requires progress >= 0.0 && totalDays > 0
    ensures OnPace(progress, 0, totalDays) == Some(true)
  {
  }

  /** At the end of the window only full progress is on pace. */
  lemma OnPaceAtEnd(progress: real, totalDays: int)
    requires totalDays > 0
    ensures OnPace(progress, totalDays, totalDays) == Some(progress >= 100.0)
  {
  }

  /**
   * The `on_track` / `at_risk` counts of the stats endpoints: how many pacing
   * tests held and how many failed, or `None` when one of them threw.
   */
  function CountPaces(paces: seq<Option<bool>>): (r: Option<(nat, nat)>)
    ensures r.None? <==> exists i :: 0 <= i < |paces| && paces[i].None?
    ensures r.Some? ==> r.value.0 == multiset(paces)[Some(true)] && r.value.1 == multiset(paces)[Some(false)]
    ensures r.Some? ==> r.value.0 + r.value.1 == |paces|
    decreases |paces|
  {
    if |paces| == 0 then Some((0, 0))
    else
      assert paces == [paces[0]] + paces[1..];
      match (paces[0], CountPaces(paces[1..]))
      case (Some(b), Some((on, off))) => if b then Some((on + 1, off)) else Some((on, off + 1))
      case _ => None
  }
}
