/**
  The productivity rule of the player table (app.py:288-292): time spent as a
  percentage of the time available, and a three-way assessment of it.
 */
module Productivity {

  /** Time spent as a percentage of the time available; 0 when nothing is available (app.py:288). */
  function ProductivityPercent(spentMinutes: real, availableMinutes: real): (p: real)
    ensures availableMinutes <= 0.0 ==> p == 0.0
    ensures availableMinutes > 0.0 ==> p * availableMinutes == spentMinutes * 100.0
  {
    if availableMinutes > 0.0 then spentMinutes / availableMinutes * 100.0 else 0.0
  }

  datatype Assessment = NeedsImprovement | Productive | Excellent

  /**
    The assessment of app.py:290-292: start from "Needs Improvement", raise it
    to "Productive" at 80 and to "Excellent" at 95.
   */
  function Assess(p: real): (a: Assessment)
    ensures a == Excellent <==> p >= 95.0
    ensures a == Productive <==> 80.0 <= p < 95.0
    ensures a == NeedsImprovement <==> p < 80.0
  {
    var initial := NeedsImprovement;
    var raised := if p >= 80.0 then Productive else initial;
    if p >= 95.0 then Excellent else raised
  }

  /** The order of the assessments, from worst to best. */
  function Rank(a: Assessment): nat {
    match a
    case NeedsImprovement => 0
    case Productive => 1
    case Excellent => 2
  }

  /** More productivity never earns a worse assessment. */
  lemma AssessMonotone(p: real, q: real)
    requires p <= q
    ensures Rank(Assess(p)) <= Rank(Assess(q))
  {
  }

  /** With time available, more time spent never lowers the percentage. */
  lemma PercentMonotone(spent: real, spent': real, available: real)
    requires spent <= spent' && available > 0.0
    ensures ProductivityPercent(spent, available) <= ProductivityPercent(spent', available)
  {
    var p, p' := ProductivityPercent(spent, available), ProductivityPercent(spent', available);
    assert (p' - p) * available == (spent' - spent) * 100.0;
  }

  /** Spending all the available time, and no more, is exactly 100 percent, which is "Excellent". */
  lemma FullTimeIsExcellent(available: real)
    requires available > 0.0
    ensures ProductivityPercent(available, available) == 100.0
    ensures Assess(ProductivityPercent(available, available)) == Excellent
  {
    var p := ProductivityPercent(available, available);
    assert (p - 100.0) * available == 0.0;
  }
}
