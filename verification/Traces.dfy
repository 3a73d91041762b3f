// Runs of a state machine driven by a list of events, and the three ways in which the
// protocol proofs reason about whole runs: a property that every step keeps, a quantity
// that no step raises, and work that every counted step uses up.
module Traces {

  /** The state after the first k events of a schedule. */
  function At<S, E>(init: S, next: (S, E) -> S, schedule: seq<E>, k: nat): S
    requires k <= |schedule|
    decreases k
  {
    if k == 0 then init else next(At(init, next, schedule, k - 1), schedule[k - 1])
  }

  /** The number of counted steps among the first k. */
  ghost function Taken<S, E>(init: S, next: (S, E) -> S, counts: (S, E) -> bool, schedule: seq<E>, k: nat): nat
    requires k <= |schedule|
  {
    if k == 0 then 0 else
      var taken := if counts(At(init, next, schedule, k - 1), schedule[k - 1]) then 1 else 0;
      Taken(init, next, counts, schedule, k - 1) + taken
  }

  lemma {:induction false} StaysTrue<S(!new), E(!new)>(init: S, next: (S, E) -> S, inv: S -> bool,
                                                       schedule: seq<E>, j: nat, k: nat)
    requires j <= k <= |schedule| && inv(At(init, next, schedule, j))
    requires forall s, e :: inv(s) ==> inv(next(s, e))
    ensures inv(At(init, next, schedule, k))
    decreases k
  {
    if j == k {
    } else {
      StaysTrue(init, next, inv, schedule, j, k - 1);
    }
  }

  lemma {:induction false} NeverRises<S(!new), E(!new)>(init: S, next: (S, E) -> S, inv: S -> bool, f: S -> int,
                                                        schedule: seq<E>, j: nat, k: nat)
    requires j <= k <= |schedule| && inv(At(init, next, schedule, j))
    requires forall s, e :: inv(s) ==> inv(next(s, e)) && f(next(s, e)) <= f(s)
    ensures f(At(init, next, schedule, k)) <= f(At(init, next, schedule, j))
    decreases k
  {
    if j == k {
    } else {
      NeverRises(init, next, inv, f, schedule, j, k - 1);
      StaysTrue(init, next, inv, schedule, j, k - 1);
    }
  }

  lemma {:induction false} WorkIsUsed<S(!new), E(!new)>(init: S, next: (S, E) -> S, inv: S -> bool, work: S -> int,
                                                        counts: (S, E) -> bool, schedule: seq<E>, j: nat, k: nat)
    requires j <= k <= |schedule| && inv(At(init, next, schedule, j))
    requires forall s, e :: inv(s) ==> inv(next(s, e))
    requires forall s, e :: inv(s) ==> work(next(s, e)) <= work(s) - if counts(s, e) then 1 else 0
    ensures work(At(init, next, schedule, k)) <= work(At(init, next, schedule, j))
         - (Taken(init, next, counts, schedule, k) - Taken(init, next, counts, schedule, j))
    decreases k
  {
    if j == k {
    } else {
      WorkIsUsed(init, next, inv, work, counts, schedule, j, k - 1);
      StaysTrue(init, next, inv, schedule, j, k - 1);
    }
  }

  /** A flag that one event sets, and nothing clears, tells whether that event has occurred. */
  lemma {:induction false} FlagIsEvent<S(!new), E(!new)>(init: S, next: (S, E) -> S, flag: S -> bool, event: E,
                                                         schedule: seq<E>, k: nat)
    requires k <= |schedule| && !flag(init)
    requires forall s, e :: flag(next(s, e)) <==> flag(s) || e == event
    ensures flag(At(init, next, schedule, k)) <==> event in schedule[..k]
    decreases k
  {
    if k == 0 {
    } else {
      FlagIsEvent(init, next, flag, event, schedule, k - 1);
      assert schedule[..k] == schedule[..k - 1] + [schedule[k - 1]];
    }
  }

  /** Later events do not change what came before. */
  lemma {:induction false} Prefix<S, E>(init: S, next: (S, E) -> S, schedule: seq<E>, more: seq<E>, k: nat)
    requires k <= |schedule|
    ensures At(init, next, schedule + more, k) == At(init, next, schedule, k)
    decreases k
  {
    if k == 0 {
    } else {
      Prefix(init, next, schedule, more, k - 1);
    }
  }

  /** Where some allowed event always brings the end nearer, the end can be reached. */
  lemma {:induction false} CanFinish<S(!new), E(!new)>(init: S, next: (S, E) -> S, inv: S -> bool, done: S -> bool,
                                                       allowed: E -> bool, work: S -> int, schedule: seq<E>)
    returns (finish: seq<E>)
    requires inv(At(init, next, schedule, |schedule|))
    requires forall s, e :: inv(s) ==> inv(next(s, e))
    requires forall s :: inv(s) ==> work(s) >= 0
    requires forall s :: inv(s) && !done(s) ==> exists e :: allowed(e) && work(next(s, e)) < work(s)
    ensures forall e :: e in finish ==> allowed(e)
    ensures done(At(init, next, schedule + finish, |schedule + finish|))
    decreases work(At(init, next, schedule, |schedule|))
  {
    var s := At(init, next, schedule, |schedule|);
    finish := [];
    if done(s) {
      assert schedule + [] == schedule;
    } else {
      var e :| allowed(e) && work(next(s, e)) < work(s);
      Prefix(init, next, schedule, [e], |schedule|);
      var rest := CanFinish(init, next, inv, done, allowed, work, schedule + [e]);
      finish := [e] + rest;
      assert schedule + finish == schedule + [e] + rest;
    }
  }
}
