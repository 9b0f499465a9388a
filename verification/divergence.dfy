/**
  The loop with a period value of zero or below: each step stays put or moves
  back, so the loop's test against `t2` never fails once it has passed.
 */
module Divergence {
  import opened GoTime
  import opened Domain
  import opened Steps
  import opened StepLemmas

  /** `next` never moves an instant forward. */
  ghost predicate NeverAdvances(next: Time -> Time) {
    forall t: Time :: next(t).unix <= t.unix
  }

  /** A value of zero or below makes the step stay put or move back. */
  lemma NextNeverAdvances(u: Unit, v: int)
    requires v <= 0
    ensures NeverAdvances(Next(u, v))
  {
    forall t: Time ensures Next(u, v)(t).unix <= t.unix {
      StepSign(u, v, t);
    }
  }

  /** Under a step that never moves forward, no turn of the loop leaves its start. */
  lemma {:induction false} IterateNeverAdvances(next: Time -> Time, p: Time, n: nat)
    requires NeverAdvances(next)
    ensures Iterate(next, p, n).unix <= p.unix
  {
    if n > 0 {
      IterateNeverAdvances(next, p, n - 1);
    }
  }

  /**
    With a value of zero or below the loop as written never ends: every point
    stays before `t2`. Below `-MaxHours` hours Go's duration wraps to a forward
    step, so those values are not covered here.
   */
  lemma LoopNeverEnds(u: Unit, v: int, p: Time, t2: Time, n: nat)
    requires v <= 0 && Before(p, t2)
    requires u == Hour ==> -MaxHours <= v
    ensures Iterate(Next(u, v), p, n).unix <= p.unix && Before(Iterate(Next(u, v), p, n), t2)
  {
    NextNeverAdvances(u, v);
    IterateNeverAdvances(Next(u, v), p, n);
  }
}
