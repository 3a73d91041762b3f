// What the two worker pools have in common: workers that check for cancellation, ask the
// scheduler for a run and work it off. The proofs about overrun and termination look at a
// pool only through a View.
module WorkerPool {
  import opened Basics
  import Traces
  import S = Scheduler

  // cost bounds what taking a run adds to the weight of a worker.
  datatype View<!T, !P> = View(
    sched: T -> S.State,
    phases: T -> seq<P>,
    over: T -> bool,      // is scheduling over?
    asking: P -> bool,    // past the check, about to ask the scheduler
    weight: P -> int,     // distance to the next check
    cost: int)

  /** Entry i of the tallies with d added to it. */
  function Add<T>(tallies: seq<T>, i: nat, d: T, plus: (T, T) -> T): (r: seq<T>)
    ensures |r| == |tallies|
    ensures forall k :: 0 <= k < |tallies| && k != i ==> r[k] == tallies[k]
    ensures i < |tallies| ==> r[i] == plus(tallies[i], d)
  {
    if i < |tallies| then tallies[i := plus(tallies[i], d)] else tallies
  }

  // A step of worker w either takes a new run or brings the worker nearer to its next check;
  // and when scheduling is over no worker gets past that check any more.
  ghost predicate Moves<T, P>(v: View<T, P>, s: T, t: T, w: nat, choice: nat) {
    && w < |v.phases(s)| == |v.phases(t)|
    && v.phases(t) == v.phases(s)[w := v.phases(t)[w]]
    && var p, q := v.phases(s)[w], v.phases(t)[w];
       if v.asking(p) && v.sched(s).available != []
       then S.CanIssue(v.sched(s), choice) && v.sched(t) == S.AfterIssue(v.sched(s), choice)
            && !v.asking(q) && v.weight(q) < v.weight(p) + v.cost
       else v.sched(t) == v.sched(s) && v.weight(q) < v.weight(p) && (v.over(s) ==> !v.asking(q))
  }

  // Every event is a step of one worker, or it leaves scheduler and workers alone; nothing
  // reopens scheduling.
  ghost predicate Follows<T, P>(v: View<T, P>, s: T, t: T, steps: bool) {
    && (v.over(s) ==> v.over(t))
    && if steps then exists w: nat, choice: nat :: Moves(v, s, t, w, choice)
       else v.sched(t) == v.sched(s) && v.phases(t) == v.phases(s)
  }

  ghost function AskingOne<T, P>(v: View<T, P>): P -> int {
    p => if v.asking(p) then 1 else 0
  }

  /** Runs scheduled so far, and workers past the check that will still ask for one. */
  ghost function Exposure<T, P>(v: View<T, P>): T -> int {
    s => S.Scheduled(v.sched(s)) + Sum(v.phases(s), AskingOne(v))
  }

  /** Runs still to be scheduled, and what the workers have before them. */
  ghost function Work<T, P>(v: View<T, P>): T -> int {
    s => v.cost * S.Remaining(v.sched(s)) + Sum(v.phases(s), v.weight)
  }

  lemma ExposureNeverRises<T, P>(v: View<T, P>, s: T, t: T, steps: bool)
    requires Follows(v, s, t, steps) && v.over(s)
    ensures Exposure(v)(t) <= Exposure(v)(s)
  {
    if steps {
      var w: nat, choice: nat :| Moves(v, s, t, w, choice);
      SumUpdate(v.phases(s), w, v.phases(t)[w], AskingOne(v));
      if v.sched(t) != v.sched(s) {
        S.IssueSchedulesOneRun(v.sched(s), choice);
      }
    }
  }

  lemma StepUsesWork<T, P>(v: View<T, P>, s: T, t: T, steps: bool)
    requires Follows(v, s, t, steps)
    ensures Work(v)(t) <= Work(v)(s) - if steps then 1 else 0
  {
    if steps {
      var w: nat, choice: nat :| Moves(v, s, t, w, choice);
      SumUpdate(v.phases(s), w, v.phases(t)[w], v.weight);
      if v.asking(v.phases(s)[w]) && v.sched(s).available != [] {
        S.IssueUsesOneRun(v.sched(s), choice);
        assert v.cost * (S.Remaining(v.sched(s)) - 1) == v.cost * S.Remaining(v.sched(s)) - v.cost;
      }
    }
  }

  /** Once scheduling is over, only the workers past the check can schedule one more run each. */
  lemma BoundedOverrun<T(!new), E(!new), P>(v: View<T, P>, init: T, next: (T, E) -> T, steps: (T, E) -> bool,
                                            schedule: seq<E>, j: nat, k: nat)
    requires j <= k <= |schedule|
    requires forall s, e :: Follows(v, s, next(s, e), steps(s, e))
    requires v.over(Traces.At(init, next, schedule, j))
    ensures var s, t := Traces.At(init, next, schedule, j), Traces.At(init, next, schedule, k);
      S.Scheduled(v.sched(t)) - S.Scheduled(v.sched(s)) <= Sum(v.phases(s), AskingOne(v))
  {
    var s, t := Traces.At(init, next, schedule, j), Traces.At(init, next, schedule, k);
    forall s, e | v.over(s) ensures v.over(next(s, e)) && Exposure(v)(next(s, e)) <= Exposure(v)(s) {
      ExposureNeverRises(v, s, next(s, e), steps(s, e));
    }
    Traces.NeverRises(init, next, v.over, Exposure(v), schedule, j, k);
    SumNonNegative(v.phases(t), AskingOne(v));
  }

  lemma {:induction false} AllButOneAsk<T, P>(v: View<T, P>, phases: seq<P>, w: nat)
    requires w < |phases| && !v.asking(phases[w])
    ensures Sum(phases, AskingOne(v)) <= |phases| - 1
  {
    if w == 0 {
      SumBetween(phases[1..], AskingOne(v), 0, 1);
    } else {
      AllButOneAsk(v, phases[1..], w - 1);
    }
  }

  /** Every step of a worker uses up work, whatever the interleaving. */
  lemma WorkIsUsed<T(!new), E(!new), P>(v: View<T, P>, init: T, next: (T, E) -> T, steps: (T, E) -> bool,
                                        schedule: seq<E>, k: nat)
    requires k <= |schedule|
    requires forall s, e :: Follows(v, s, next(s, e), steps(s, e))
    ensures Work(v)(Traces.At(init, next, schedule, k)) <= Work(v)(init) - Traces.Taken(init, next, steps, schedule, k)
  {
    forall s, e ensures Work(v)(next(s, e)) <= Work(v)(s) - if steps(s, e) then 1 else 0 {
      StepUsesWork(v, s, next(s, e), steps(s, e));
    }
    hide Work;
    Traces.WorkIsUsed(init, next, _ => true, Work(v), steps, schedule, 0, k);
  }

  // A worker about to ask may have to work off one more run.
  ghost function RestOf<T, P>(v: View<T, P>): P -> int {
    p => v.weight(p) + if v.asking(p) then v.cost else 0
  }

  /** What the workers have before them once scheduling is over. */
  ghost function Rest<T, P>(v: View<T, P>): T -> int {
    s => Sum(v.phases(s), RestOf(v))
  }

  lemma StepUsesRest<T, P>(v: View<T, P>, s: T, t: T, steps: bool)
    requires Follows(v, s, t, steps) && v.over(s) && v.cost >= 0
    ensures Rest(v)(t) <= Rest(v)(s) - if steps then 1 else 0
  {
    if steps {
      var w: nat, choice: nat :| Moves(v, s, t, w, choice);
      SumUpdate(v.phases(s), w, v.phases(t)[w], RestOf(v));
    }
  }

  /** Once scheduling is over, every step of a worker brings the end nearer, run limit or not. */
  lemma RestIsUsed<T(!new), E(!new), P>(v: View<T, P>, init: T, next: (T, E) -> T, steps: (T, E) -> bool,
                                        schedule: seq<E>, j: nat, k: nat)
    requires j <= k <= |schedule| && v.over(Traces.At(init, next, schedule, j)) && v.cost >= 0
    requires forall s, e :: Follows(v, s, next(s, e), steps(s, e))
    ensures Rest(v)(Traces.At(init, next, schedule, k)) <= Rest(v)(Traces.At(init, next, schedule, j))
         - (Traces.Taken(init, next, steps, schedule, k) - Traces.Taken(init, next, steps, schedule, j))
  {
    forall s, e | v.over(s) ensures v.over(next(s, e)) && Rest(v)(next(s, e)) <= Rest(v)(s) - if steps(s, e) then 1 else 0 {
      StepUsesRest(v, s, next(s, e), steps(s, e));
    }
    hide Rest;
    Traces.WorkIsUsed(init, next, v.over, Rest(v), steps, schedule, j, k);
  }

  /** Under a run limit work never becomes negative. */
  lemma WorkIsNonNegative<T, P>(v: View<T, P>, s: T)
    requires S.Valid(v.sched(s)) && v.sched(s).limit > 0 && v.cost >= 0
    requires forall p :: p in v.phases(s) ==> v.weight(p) >= 0
    ensures Work(v)(s) >= 0
  {
    S.RemainingMeansAvailable(v.sched(s));
    SumNonNegative(v.phases(s), v.weight);
  }

  /** No event takes back a scheduled run. */
  lemma ScheduledNeverFalls<T(!new), E(!new), P>(v: View<T, P>, init: T, next: (T, E) -> T, steps: (T, E) -> bool,
                                                 schedule: seq<E>, j: nat, k: nat)
    requires j <= k <= |schedule|
    requires forall s, e :: Follows(v, s, next(s, e), steps(s, e))
    ensures S.Scheduled(v.sched(Traces.At(init, next, schedule, j))) <= S.Scheduled(v.sched(Traces.At(init, next, schedule, k)))
  {
    var unscheduled := (s: T) => -S.Scheduled(v.sched(s));
    forall s, e ensures unscheduled(next(s, e)) <= unscheduled(s) {
      assert Follows(v, s, next(s, e), steps(s, e));
      if steps(s, e) {
        var w: nat, choice: nat :| Moves(v, s, next(s, e), w, choice);
        if v.asking(v.phases(s)[w]) && v.sched(s).available != [] {
          S.IssueSchedulesOneRun(v.sched(s), choice);
        }
      }
    }
    Traces.NeverRises(init, next, _ => true, unscheduled, schedule, j, k);
  }

  // The weights of a view and the scheduler of a state are sound.
  ghost predicate Sound<T, P>(v: View<T, P>, s: T) {
    v.cost >= 0 && S.Valid(v.sched(s)) && forall p :: p in v.phases(s) ==> v.weight(p) >= 0
  }

  // What is left to do, by whichever bound there is.
  ghost function Left<T, P>(v: View<T, P>): T -> int {
    s => if v.sched(s).limit > 0 then Work(v)(s) else Rest(v)(s)
  }

  ghost predicate WillEnd<T, P>(v: View<T, P>, s: T) {
    v.sched(s).limit > 0 || v.over(s)
  }

  lemma LeftIsUsed<T, P>(v: View<T, P>, s: T, t: T, steps: bool)
    requires Sound(v, s) && WillEnd(v, s) && Follows(v, s, t, steps)
    ensures Left(v)(s) >= 0 && WillEnd(v, t)
    ensures steps ==> Left(v)(t) < Left(v)(s)
  {
    assert v.sched(t).limit == v.sched(s).limit by {
      if steps {
        var w: nat, choice: nat :| Moves(v, s, t, w, choice);
      }
    }
    if v.sched(s).limit > 0 {
      WorkIsNonNegative(v, s);
      StepUsesWork(v, s, t, steps);
    } else {
      SumNonNegative(v.phases(s), RestOf(v));
      StepUsesRest(v, s, t, steps);
    }
  }

  /** With a run limit, and also once scheduling is over, the pool can finish, as long as some
      worker can always take an allowed step. */
  lemma CanFinish<T(!new), E(!new), P>(v: View<T, P>, init: T, next: (T, E) -> T, steps: (T, E) -> bool,
                                       inv: T -> bool, done: T -> bool, allowed: E -> bool, schedule: seq<E>)
    returns (finish: seq<E>)
    requires forall s, e :: Follows(v, s, next(s, e), steps(s, e))
    requires forall s :: inv(s) ==> Sound(v, s)
    requires forall s, e :: inv(s) ==> inv(next(s, e))
    requires forall s :: inv(s) && !done(s) ==> exists e :: allowed(e) && steps(s, e)
    requires var s := Traces.At(init, next, schedule, |schedule|); inv(s) && WillEnd(v, s)
    ensures forall e :: e in finish ==> allowed(e)
    ensures done(Traces.At(init, next, schedule + finish, |schedule + finish|))
  {
    var ending := (s: T) => inv(s) && WillEnd(v, s);
    forall s, e | ending(s) ensures ending(next(s, e)) && Left(v)(s) >= 0 {
      LeftIsUsed(v, s, next(s, e), steps(s, e));
    }
    forall s | ending(s)
      ensures Left(v)(s) >= 0
      ensures !done(s) ==> exists e :: allowed(e) && Left(v)(next(s, e)) < Left(v)(s)
    {
      LeftIsUsed(v, s, s, false);
      if !done(s) {
        var e :| allowed(e) && steps(s, e);
        LeftIsUsed(v, s, next(s, e), true);
      }
    }
    hide Left;
    hide WillEnd;
    finish := Traces.CanFinish(init, next, ending, done, allowed, Left(v), schedule);
  }
}
