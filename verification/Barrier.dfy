// The two-phase barrier of run_thread in cpp/bench.cpp. One counter under one mutex serves
// both the start and the finish rendezvous. A waiting thread may re-check its condition at
// any time, which covers notifications and spurious wake-ups alike.
module Barrier {
  import opened Basics
  import Traces

  datatype Phase =
    | Starting     // before the first critical section
    | WaitingStart // counted in, waiting for the counter to reach the total
    | Working      // inside run_thread_impl
    | Finished     // before the second critical section
    | WaitingEnd   // counted out, waiting for the counter to reach zero
    | Returned

  datatype State = State(counter: int, phases: seq<Phase>)

  function Init(threads: nat): State {
    State(0, seq(threads, _ => Starting))
  }

  /** The next step of one thread; the total is the number of threads. */
  function Apply(s: State, thread: nat): State {
    if thread >= |s.phases| then s else
    match s.phases[thread]
    case Starting => State(s.counter + 1, s.phases[thread := WaitingStart])
    case WaitingStart => if s.counter == |s.phases| then s.(phases := s.phases[thread := Working]) else s
    case Working => s.(phases := s.phases[thread := Finished])
    case Finished => State(s.counter - 1, s.phases[thread := WaitingEnd])
    case WaitingEnd => if s.counter == 0 then s.(phases := s.phases[thread := Returned]) else s
    case Returned => s
  }

  function Next(): (State, nat) -> State {
    (s: State, thread: nat) => Apply(s, thread)
  }

  /** The state after the first k steps of a schedule, a list of thread numbers. */
  function At(threads: nat, schedule: seq<nat>, k: nat): State
    requires k <= |schedule|
  {
    Traces.At(Init(threads), Next(), schedule, k)
  }

  ghost function Arrived(): Phase -> int {
    (p: Phase) => if p.Starting? then 0 else 1
  }

  ghost function Departed(): Phase -> int {
    (p: Phase) => if p.WaitingEnd? || p.Returned? then 1 else 0
  }

  ghost predicate AllHave(s: State, f: Phase -> int) {
    forall w :: 0 <= w < |s.phases| ==> f(s.phases[w]) == 1
  }

  ghost predicate Inv(s: State) {
    && s.counter == Sum(s.phases, Arrived()) - Sum(s.phases, Departed())
    && (forall w :: 0 <= w < |s.phases| ==>
          (s.phases[w].Working? || s.phases[w].Finished? || s.phases[w].WaitingEnd? ==> AllHave(s, Arrived()))
          && (s.phases[w].Returned? ==> AllHave(s, Departed())))
  }

  lemma {:induction false} FullSum(phases: seq<Phase>, f: Phase -> int)
    requires forall p :: 0 <= f(p) <= 1
    ensures 0 <= Sum(phases, f) <= |phases|
    ensures Sum(phases, f) == |phases| <==> forall w :: 0 <= w < |phases| ==> f(phases[w]) == 1
  {
    if phases == [] {
    } else {
      FullSum(phases[1..], f);
      if forall w :: 0 <= w < |phases| ==> f(phases[w]) == 1 {
        assert forall w :: 0 <= w < |phases| - 1 ==> f(phases[1..][w]) == 1;
      }
    }
  }

  lemma ApplyInv(s: State, thread: nat)
    requires Inv(s)
    ensures Inv(Apply(s, thread))
  {
    if thread < |s.phases| {
      var t := Apply(s, thread);
      assert t.phases == s.phases[thread := t.phases[thread]];
      SumUpdate(s.phases, thread, t.phases[thread], Arrived());
      SumUpdate(s.phases, thread, t.phases[thread], Departed());
      FullSum(s.phases, Arrived());
      FullSum(s.phases, Departed());
      FullSum(t.phases, Departed());
    }
  }

  /** In every reachable state the counter is arrived minus departed. */
  lemma AlwaysInv(threads: nat, schedule: seq<nat>, k: nat)
    requires k <= |schedule|
    ensures Inv(At(threads, schedule, k)) && |At(threads, schedule, k).phases| == threads
  {
    SumBetween(Init(threads).phases, Arrived(), 0, 0);
    SumBetween(Init(threads).phases, Departed(), 0, 0);
    forall s, thread | Inv(s) ensures Inv(Next()(s, thread)) && |Next()(s, thread).phases| == |s.phases| {
      ApplyInv(s, thread);
    }
    Traces.StaysTrue(Init(threads), Next(), s => Inv(s) && |s.phases| == threads, schedule, 0, k);
  }

  /** In every interleaving: a thread that has started work sees that all have arrived, a
      thread that has returned sees that all have finished work, and the counter stays
      between zero and the number of threads, so the unsigned decrement never wraps. */
  lemma BarrierIsSafe(threads: nat, schedule: seq<nat>, k: nat, w: nat)
    requires k <= |schedule| && w < threads
    ensures var s := At(threads, schedule, k);
      && |s.phases| == threads
      && (!s.phases[w].Starting? && !s.phases[w].WaitingStart? ==>
            forall v :: 0 <= v < threads ==> !s.phases[v].Starting?)
      && (s.phases[w].Returned? ==>
            forall v :: 0 <= v < threads ==> s.phases[v].WaitingEnd? || s.phases[v].Returned?)
      && 0 <= s.counter <= threads
  {
    var s := At(threads, schedule, k);
    AlwaysInv(threads, schedule, k);
    FullSum(s.phases, Arrived());
    FullSum(s.phases, Departed());
    assert s.phases[w].Returned? ==> forall v :: 0 <= v < threads ==> Departed()(s.phases[v]) == 1;
    assert AllHave(s, Arrived()) ==> forall v :: 0 <= v < threads ==> Arrived()(s.phases[v]) == 1;
    DepartedAfterArrived(s.phases);
  }

  lemma {:induction false} DepartedAfterArrived(phases: seq<Phase>)
    ensures Sum(phases, Departed()) <= Sum(phases, Arrived())
  {
    if phases == [] {
    } else {
      DepartedAfterArrived(phases[1..]);
    }
  }

  // ---------- Where liveness ends ----------

  predicate AllReturned(s: State) {
    forall w :: 0 <= w < |s.phases| ==> s.phases[w] == Returned
  }

  // Unfinished, and no thread can move any more.
  ghost predicate Stuck(s: State) {
    !AllReturned(s) && forall thread: nat :: Apply(s, thread) == s
  }

  // Every thread arrives, and then the last one runs through to its second wait.
  function HastySchedule(threads: nat): seq<nat>
    requires threads > 0
  {
    seq(threads, i => i) + [threads - 1, threads - 1, threads - 1]
  }

  lemma {:induction false} Arrivals(threads: nat, k: nat)
    requires 0 < threads && k <= threads
    ensures At(threads, HastySchedule(threads), k)
         == State(k, seq(threads, i => if i < k then WaitingStart else Starting))
    decreases k
  {
    if k > 0 {
      Arrivals(threads, k - 1);
      assert HastySchedule(threads)[k - 1] == k - 1;
    } else {
      assert Init(threads).phases == seq(threads, i => if i < 0 then WaitingStart else Starting);
    }
  }

  /** Because the counter can fall below the total before a waiter looks at it, a run can
      get stuck for ever exactly when it has two or more threads. */
  lemma {:induction false} CanGetStuckIff(threads: nat)
    ensures (exists schedule: seq<nat> :: Stuck(At(threads, schedule, |schedule|))) <==> threads >= 2
  {
    if threads >= 2 {
      var schedule := HastySchedule(threads);
      Arrivals(threads, threads);
      var last := threads - 1;
      var s1 := At(threads, schedule, threads + 1);
      assert schedule[threads] == schedule[threads + 1] == schedule[threads + 2] == last;
      assert s1.phases[last] == Working;
      var s2 := At(threads, schedule, threads + 2);
      assert s2.phases[last] == Finished;
      var s3 := At(threads, schedule, threads + 3);
      assert s3.counter == threads - 1 && s3.phases[last] == WaitingEnd;
      assert forall w :: 0 <= w < last ==> s3.phases[w] == WaitingStart;
      assert s3.phases[0] != Returned;
      assert Stuck(At(threads, schedule, |schedule|));
    } else {
      forall schedule: seq<nat> ensures !Stuck(At(threads, schedule, |schedule|)) {
        LoneThreadMoves(threads, schedule, |schedule|);
      }
    }
  }

  lemma LoneThreadMoves(threads: nat, schedule: seq<nat>, k: nat)
    requires threads < 2 && k <= |schedule|
    ensures !Stuck(At(threads, schedule, k))
  {
    var s := At(threads, schedule, k);
    AlwaysInv(threads, schedule, k);
    if threads == 1 {
      assert s.phases == [s.phases[0]];
      assert Sum(s.phases, Arrived()) == Arrived()(s.phases[0]);
      assert Sum(s.phases, Departed()) == Departed()(s.phases[0]);
      assert Apply(s, 0) == s ==> s.phases[0].Returned?;
    }
  }

  // The counter and the phases when every thread has done `round` steps, and the first k one more.
  function Counter(threads: nat, round: nat, k: nat): int {
    if round == 0 then k else if round < 3 then threads else if round == 3 then threads - k else 0
  }

  function PhaseAfter(steps: nat): Phase {
    match steps
    case 0 => Starting
    case 1 => WaitingStart
    case 2 => Working
    case 3 => Finished
    case 4 => WaitingEnd
    case _ => Returned
  }

  function InRound(threads: nat, round: nat, k: nat): (s: State)
    ensures |s.phases| == threads
    ensures forall i :: 0 <= i < threads ==> s.phases[i] == PhaseAfter(if i < k then round + 1 else round)
  {
    State(Counter(threads, round, k), seq(threads, i => PhaseAfter(if i < k then round + 1 else round)))
  }

  // Every thread steps once per round.
  function Rounds(threads: nat, rounds: nat): seq<nat> {
    if rounds == 0 then [] else Rounds(threads, rounds - 1) + seq(threads, i => i)
  }

  lemma {:induction false} RoundProgress(threads: nat, round: nat, k: nat)
    requires round < 5 && k <= threads
    ensures var schedule, done := Rounds(threads, round + 1), |Rounds(threads, round)| + k;
      done <= |schedule| && At(threads, schedule, done) == InRound(threads, round, k)
    decreases round, k
  {
    var before := Rounds(threads, round);
    var now: seq<nat> := seq(threads, i => i);
    if k == 0 {
      if round == 0 {
        assert Init(threads).phases == InRound(threads, 0, 0).phases;
        assert before == [];
      } else {
        RoundProgress(threads, round - 1, threads);
        Traces.Prefix(Init(threads), Next(), before, now, |before|);
        assert |before| == |Rounds(threads, round - 1)| + threads;
        assert InRound(threads, round - 1, threads) == InRound(threads, round, 0);
      }
    } else {
      RoundProgress(threads, round, k - 1);
      assert (before + now)[|before| + k - 1] == k - 1;
      assert InRound(threads, round, k).phases == InRound(threads, round, k - 1).phases[k - 1 := PhaseAfter(round + 1)];
    }
  }

  /** The barrier does not rule out success: with any number of threads all can get through. */
  lemma CanFinish(threads: nat)
    ensures exists schedule: seq<nat> :: AllReturned(At(threads, schedule, |schedule|))
  {
    var schedule := Rounds(threads, 5);
    RoundProgress(threads, 4, threads);
    assert |schedule| == |Rounds(threads, 4)| + threads;
    assert At(threads, schedule, |schedule|) == InRound(threads, 4, threads);
    assert AllReturned(InRound(threads, 4, threads));
  }
}
