// The worker pool of runSQLPairsRandomly in dbHelper/compare_results.go as a state
// machine. A schedule is any list of events; an event that is not enabled leaves the
// state alone (a blocked or finished worker), so At(config, schedule, k) ranges over
// every interleaving. Cancelling a context cancels its children in the same step.
module ComparePool {
  import opened Basics
  import Traces
  import S = Scheduler
  import Workers = WorkerPool

  datatype Config = Config(pairs: nat, workers: nat, runsPerPair: nat, timed: bool)

  // Why a comparison returned an error: on its own account, or because its context,
  // workerCtx, was cancelled under it.
  datatype Cause = Genuine | Interrupted

  // Where a worker is in its loop; one step takes it to the next point.
  datatype Phase =
    | Checking                               // select on schedulingCtx.Done()
    | Asking                                 // scheduler.next()
    | Running(issue: S.Issue)                // inside comparePair
    | Errored(issue: S.Issue, cause: Cause)  // about to test workerCtx.Err()
    | Reporting(issue: S.Issue, cause: Cause) // about to enter failureOnce.Do
    | Stopping(issue: S.Issue)               // firstFailure is set, about to call stopWorkers
    | Succeeded(issue: S.Issue)              // about to add to completedRuns
    | Returned

  datatype Once = Unused | InUse | Used

  datatype Failure = Failure(worker: nat, issue: S.Issue, cause: Cause)

  // The runs of one pair. completed is the atomic counter; the others only record history:
  // runs whose error was a secondary one, and runs whose error went through failureOnce.
  datatype Tally = Tally(completed: nat, dropped: nat, reported: nat)

  datatype State = State(
    sched: S.State,
    phases: seq<Phase>,
    callerCanceled: bool,
    expired: bool,
    stopped: bool,
    once: Once,
    firstFailure: Option<Failure>,
    tallies: seq<Tally>)

  datatype Event =
    | Step(worker: nat, choice: nat, error: Option<Cause>)
    | CancelCaller
    | Expire

  datatype Outcome = Failed(failure: Failure) | Canceled | Success

  /** The checks that runSQLPairsRandomly makes before it starts any worker. */
  predicate Accepted(config: Config) {
    config.pairs > 0 && config.workers > 0 && (config.timed || config.runsPerPair > 0)
  }

  datatype ConfigError = NoPairs | NoComparison | NoWorkers | NegativeDuration | NegativeRuns | NoLimit

  /** The first check that fails, in the order of runSQLPairsRandomly and validateConcurrentCompareConfig. */
  method ValidateConfig(pairs: nat, hasComparison: bool, workers: int, duration: int, runsPerPair: int)
    returns (error: Option<ConfigError>)
    ensures match error
      case Some(NoPairs) => pairs == 0
      case Some(NoComparison) => pairs > 0 && !hasComparison
      case Some(NoWorkers) => pairs > 0 && hasComparison && workers <= 0
      case Some(NegativeDuration) => pairs > 0 && hasComparison && workers > 0 && duration < 0
      case Some(NegativeRuns) => pairs > 0 && hasComparison && workers > 0 && duration >= 0 && runsPerPair < 0
      case Some(NoLimit) => pairs > 0 && hasComparison && workers > 0 && duration == runsPerPair == 0
      case None => hasComparison && workers >= 0 && duration >= 0 && runsPerPair >= 0
                   && Accepted(Config(pairs, workers, runsPerPair, duration > 0))
  {
    if pairs == 0 {
      return Some(NoPairs);
    }
    if !hasComparison {
      return Some(NoComparison);
    }
    if workers <= 0 {
      return Some(NoWorkers);
    }
    if duration < 0 {
      return Some(NegativeDuration);
    }
    if runsPerPair < 0 {
      return Some(NegativeRuns);
    }
    if duration == 0 && runsPerPair == 0 {
      return Some(NoLimit);
    }
    return None;
  }

  function Init(config: Config): State {
    State(S.Fresh(config.pairs, config.runsPerPair), seq(config.workers, _ => Checking),
          false, false, false, Unused, None,
          seq(config.pairs, _ => Tally(0, 0, 0)))
  }

  // workerCtx.Err() != nil
  predicate WorkersCanceled(s: State) {
    s.callerCanceled || s.stopped
  }

  // schedulingCtx is done
  predicate SchedulingOver(s: State) {
    WorkersCanceled(s) || s.expired
  }

  // Worker w is unfinished, and if it asks for a run it makes an in-range choice.
  predicate Ready(s: State, w: nat, choice: nat) {
    && w < |s.phases| && s.phases[w] != Returned
    && (s.phases[w].Asking? && s.sched.available != [] ==> S.CanIssue(s.sched, choice))
  }

  predicate Enabled(config: Config, s: State, e: Event) {
    match e
    case CancelCaller => true
    case Expire => config.timed
    case Step(w, choice, error) =>
      && Ready(s, w, choice)
      && (s.phases[w].Running? && error == Some(Interrupted) ==> WorkersCanceled(s))
      && (s.phases[w].Reporting? ==> s.once != InUse)
  }

  function Plus(t: Tally, d: Tally): Tally {
    Tally(t.completed + d.completed, t.dropped + d.dropped, t.reported + d.reported)
  }

  /** The next step of worker w: its effect on the shared data, and where the worker goes. */
  function Move(s: State, w: nat, choice: nat, error: Option<Cause>): (State, Phase)
    requires Ready(s, w, choice)
  {
    match s.phases[w]
    case Checking => (s, if SchedulingOver(s) then Returned else Asking)
    case Asking =>
      if s.sched.available == [] then (s, Returned)
      else (s.(sched := S.AfterIssue(s.sched, choice)), Running(S.Issued(s.sched, choice)))
    case Running(issue) => (s, if error.None? then Succeeded(issue) else Errored(issue, error.value))
    case Errored(issue, cause) =>
      if WorkersCanceled(s) then (s.(tallies := Workers.Add(s.tallies, issue.item, Tally(0, 1, 0), Plus)), Returned)
      else (s, Reporting(issue, cause))
    case Reporting(issue, cause) =>
      if s.once == Unused then (s.(once := InUse, firstFailure := Some(Failure(w, issue, cause))), Stopping(issue))
      else (s.(tallies := Workers.Add(s.tallies, issue.item, Tally(0, 0, 1), Plus)), Returned)
    case Stopping(issue) =>
      (s.(once := Used, stopped := true, tallies := Workers.Add(s.tallies, issue.item, Tally(0, 0, 1), Plus)), Returned)
    case Succeeded(issue) => (s.(tallies := Workers.Add(s.tallies, issue.item, Tally(1, 0, 0), Plus)), Checking)
  }

  function Apply(config: Config, s: State, e: Event): State {
    if !Enabled(config, s, e) then s else
    match e
    case CancelCaller => s.(callerCanceled := true)
    case Expire => s.(expired := true)
    case Step(w, choice, error) =>
      var (t, phase) := Move(s, w, choice, error);
      t.(phases := s.phases[w := phase])
  }

  function Next(config: Config): (State, Event) -> State {
    (s, e) => Apply(config, s, e)
  }

  /** The state after the first k events of a schedule. */
  function At(config: Config, schedule: seq<Event>, k: nat): State
    requires k <= |schedule|
  {
    Traces.At(Init(config), Next(config), schedule, k)
  }

  predicate AllReturned(s: State) {
    forall w :: 0 <= w < |s.phases| ==> s.phases[w] == Returned
  }

  /** What runSQLPairsRandomly returns once every worker has. */
  function Result(s: State): Outcome {
    if s.firstFailure.Some? then Failed(s.firstFailure.value) else if s.callerCanceled then Canceled else Success
  }

  // ---------- The inductive invariant ----------

  // The run that a worker holds.
  function IssueOf(p: Phase): Option<S.Issue> {
    match p
    case Checking | Asking | Returned => None
    case Running(issue) => Some(issue)
    case Errored(issue, _) => Some(issue)
    case Reporting(issue, _) => Some(issue)
    case Stopping(issue) => Some(issue)
    case Succeeded(issue) => Some(issue)
  }

  ghost function Holds(item: nat): Phase -> int {
    (p: Phase) => if IssueOf(p).Some? && IssueOf(p).value.item == item then 1 else 0
  }

  /** Every scheduled run is completed, dropped, reported, or still held by a worker. */
  ghost predicate RunsAccounted(s: State, item: nat)
    requires |s.sched.counts| == |s.tallies| && item < |s.tallies|
  {
    s.sched.counts[item] == s.tallies[item].completed + s.tallies[item].dropped + s.tallies[item].reported + Sum(s.phases, Holds(item))
  }

  ghost predicate Shape(config: Config, s: State) {
    && S.Valid(s.sched) && s.sched.limit == config.runsPerPair
    && |s.sched.counts| == |s.tallies| == config.pairs
    && |s.phases| == config.workers
    && (s.expired ==> config.timed)
  }

  ghost predicate Flags(s: State) {
    && (s.stopped <==> s.once == Used)
    && (s.firstFailure.None? <==> s.once == Unused)
    && (s.firstFailure.Some? ==> s.firstFailure.value.cause == Genuine)
    && (s.once != Unused ==> s.firstFailure.value.worker < |s.phases|)
    && (s.once == InUse ==> s.phases[s.firstFailure.value.worker].Stopping?)
    && (s.once == Used ==> s.phases[s.firstFailure.value.worker].Returned?)
    && forall w :: 0 <= w < |s.phases| ==> PhaseFits(s, w)
  }

  ghost predicate PhaseFits(s: State, w: nat)
    requires w < |s.phases|
    requires s.firstFailure.None? <==> s.once == Unused
  {
    match s.phases[w]
    case Errored(_, cause) => cause == Interrupted ==> WorkersCanceled(s)
    case Reporting(_, cause) => cause == Genuine
    case Stopping(_) => s.once == InUse && s.firstFailure.value.worker == w
    case Returned => SchedulingOver(s) || s.sched.available == []
    case _ => true
  }

  ghost predicate History(s: State) {
    forall i :: 0 <= i < |s.tallies| ==>
      (s.tallies[i].dropped > 0 ==> WorkersCanceled(s)) && (s.tallies[i].reported > 0 ==> s.stopped)
  }

  ghost predicate Inv(config: Config, s: State) {
    && Shape(config, s) && Flags(s) && History(s)
    && forall i :: 0 <= i < config.pairs ==> RunsAccounted(s, i)
  }

  lemma InitInv(config: Config)
    ensures Inv(config, Init(config))
  {
    S.FreshIsValid(config.pairs, config.runsPerPair);
    forall i | 0 <= i < config.pairs ensures RunsAccounted(Init(config), i) {
      SumBetween(Init(config).phases, Holds(i), 0, 0);
    }
  }

  lemma ApplyShape(config: Config, s: State, e: Event)
    requires Shape(config, s)
    ensures Shape(config, Apply(config, s, e))
  {
    hide S.Valid;
    var t := Apply(config, s, e);
    if e.Step? && Enabled(config, s, e) && s.phases[e.worker].Asking? && s.sched.available != [] {
      S.IssueKeepsValid(s.sched, e.choice);
    } else {
      assert t.sched == s.sched;
    }
  }

  lemma FitsAfter(config: Config, s: State, e: Event, v: nat)
    requires Flags(s) && v < |s.phases|
    ensures var t := Apply(config, s, e);
      |t.phases| == |s.phases| && (t.firstFailure.None? <==> t.once == Unused) && PhaseFits(t, v)
  {
    assert PhaseFits(s, v);
    if e.Step? && Enabled(config, s, e) {
      assert PhaseFits(s, e.worker);
      match s.phases[e.worker]
      case Running(_) =>
      case _ =>
    }
  }

  lemma ApplyFlags(config: Config, s: State, e: Event)
    requires Flags(s)
    ensures Flags(Apply(config, s, e))
  {
    var t := Apply(config, s, e);
    if e.Step? && Enabled(config, s, e) {
      assert PhaseFits(s, e.worker);
    }
    forall v | 0 <= v < |t.phases| ensures PhaseFits(t, v) {
      FitsAfter(config, s, e, v);
    }
  }

  lemma ApplyHistory(config: Config, s: State, e: Event)
    requires Shape(config, s) && Flags(s) && History(s)
    ensures History(Apply(config, s, e))
  {
    hide S.Valid;
    if e.Step? && Enabled(config, s, e) {
      assert PhaseFits(s, e.worker);
    }
  }

  // Scheduled runs of an item that no worker holds any more, and those one worker holds.
  ghost function Ledger(s: State, item: nat): int
    requires item < |s.tallies|
  {
    s.tallies[item].completed + s.tallies[item].dropped + s.tallies[item].reported
  }

  // Whether this step schedules a run of the item.
  ghost function Takes(s: State, w: nat, choice: nat, item: nat): int
    requires Ready(s, w, choice)
  {
    if s.phases[w].Asking? && s.sched.available != [] && s.sched.available[choice] == item then 1 else 0
  }

  lemma MoveCounts(s: State, w: nat, choice: nat, error: Option<Cause>, item: nat)
    requires Ready(s, w, choice) && item < |s.sched.counts|
    ensures var t := Move(s, w, choice, error).0;
      item < |t.sched.counts| && t.sched.counts[item] == s.sched.counts[item] + Takes(s, w, choice, item)
  {
    hide Workers.Add;
    match s.phases[w]
    case Running(_) =>
    case _ =>
  }

  lemma MoveLedger(s: State, w: nat, choice: nat, error: Option<Cause>, item: nat)
    requires Ready(s, w, choice) && item < |s.tallies|
    ensures var (t, q) := Move(s, w, choice, error);
      && item < |t.tallies|
      && Ledger(t, item) + Holds(item)(q) == Ledger(s, item) + Holds(item)(s.phases[w]) + Takes(s, w, choice, item)
  {
    hide Workers.Add;
    match s.phases[w]
    case Running(_) =>
    case _ =>
  }

  lemma ApplyAccounts(config: Config, s: State, e: Event, item: nat)
    requires Shape(config, s) && Shape(config, Apply(config, s, e))
    requires item < config.pairs && RunsAccounted(s, item)
    ensures RunsAccounted(Apply(config, s, e), item)
  {
    hide S.Valid;
    hide Move;
    if e.Step? && Enabled(config, s, e) {
      MoveCounts(s, e.worker, e.choice, e.error, item);
      MoveLedger(s, e.worker, e.choice, e.error, item);
      SumUpdate(s.phases, e.worker, Move(s, e.worker, e.choice, e.error).1, Holds(item));
    }
  }

  lemma ApplyInv(config: Config, s: State, e: Event)
    requires Inv(config, s)
    ensures Inv(config, Apply(config, s, e))
  {
    ApplyShape(config, s, e);
    ApplyFlags(config, s, e);
    ApplyHistory(config, s, e);
    forall i | 0 <= i < config.pairs ensures RunsAccounted(Apply(config, s, e), i) {
      ApplyAccounts(config, s, e, i);
    }
  }

  /** The invariant holds in every reachable state. */
  lemma AlwaysInv(config: Config, schedule: seq<Event>, k: nat)
    requires k <= |schedule|
    ensures Inv(config, At(config, schedule, k))
  {
    InitInv(config);
    forall s, e | Inv(config, s) ensures Inv(config, Next(config)(s, e)) {
      ApplyInv(config, s, e);
    }
    Traces.StaysTrue(Init(config), Next(config), s => Inv(config, s), schedule, 0, k);
  }

  /** The caller's cancellation and the end of the duration are just the events of that name. */
  lemma FlagsAreEvents(config: Config, schedule: seq<Event>, k: nat)
    requires k <= |schedule|
    ensures At(config, schedule, k).callerCanceled <==> CancelCaller in schedule[..k]
    ensures At(config, schedule, k).expired <==> config.timed && Expire in schedule[..k]
  {
    Traces.FlagIsEvent(Init(config), Next(config), (s: State) => s.callerCanceled, CancelCaller, schedule, k);
    if config.timed {
      Traces.FlagIsEvent(Init(config), Next(config), (s: State) => s.expired, Expire, schedule, k);
    } else {
      AlwaysInv(config, schedule, k);
    }
  }

  /** What ends scheduling: the caller's cancellation, the end of the duration, a failure. */
  ghost predicate Ended(config: Config, schedule: seq<Event>, k: nat)
    requires k <= |schedule|
  {
    CancelCaller in schedule[..k] || (config.timed && Expire in schedule[..k]) || At(config, schedule, k).stopped
  }

  /** A worker has returned only because scheduling had ended or every pair had all its runs. */
  lemma ReturnsForAReason(config: Config, schedule: seq<Event>, k: nat, w: nat)
    requires k <= |schedule| && w < |At(config, schedule, k).phases| && At(config, schedule, k).phases[w] == Returned
    ensures var s := At(config, schedule, k);
      || Ended(config, schedule, k) || config.pairs == 0
      || (config.runsPerPair > 0 && forall i :: 0 <= i < config.pairs ==> i < |s.sched.counts| && s.sched.counts[i] == config.runsPerPair)
  {
    var s := At(config, schedule, k);
    AlwaysInv(config, schedule, k);
    FlagsAreEvents(config, schedule, k);
    assert PhaseFits(s, w);
    if s.sched.available == [] && config.pairs > 0 {
      assert 0 !in s.sched.available;
      S.RemainingMeansAvailable(s.sched);
    }
  }

  // Event k is worker w's check, and scheduling has not ended.
  ghost predicate CheckPasses(config: Config, schedule: seq<Event>, k: nat, w: nat) {
    && k < |schedule| && schedule[k].Step? && schedule[k].worker == w
    && var s := At(config, schedule, k);
       w < |s.phases| && s.phases[w].Checking? && !Ended(config, schedule, k)
  }

  /** No run is taken on an old check: since a worker about to ask passed the check, it has
      done nothing else. */
  lemma {:induction false} AskersPassedTheCheck(config: Config, schedule: seq<Event>, k: nat, w: nat)
    requires k <= |schedule| && w < |At(config, schedule, k).phases| && At(config, schedule, k).phases[w].Asking?
    ensures exists j: nat :: j < k && CheckPasses(config, schedule, j, w)
                             && forall m :: j < m < k ==> schedule[m].Step? ==> schedule[m].worker == w ==> !Enabled(config, At(config, schedule, m), schedule[m])
    decreases k
  {
    if k == 0 {
    } else {
      var s, e := At(config, schedule, k - 1), schedule[k - 1];
      FlagsAreEvents(config, schedule, k - 1);
      if s.phases[w].Asking? {
        AskersPassedTheCheck(config, schedule, k - 1, w);
      } else {
        assert CheckPasses(config, schedule, k - 1, w);
      }
    }
  }

  /** The model leaves out no run: at any moment the caller may cancel and a timer expire, every
      choice of an available pair is possible, and a comparison may succeed or fail; it can be
      interrupted exactly when its context is cancelled. A worker waits only for the one that
      is recording its failure. */
  lemma NothingIsExcluded(config: Config, schedule: seq<Event>, w: nat, choice: nat, error: Option<Cause>)
    requires w < config.workers
    ensures var s, e := At(config, schedule, |schedule|), Step(w, choice, error);
      && |s.phases| == config.workers
      && Enabled(config, s, CancelCaller) && (Enabled(config, s, Expire) <==> config.timed)
      && match s.phases[w]
         case Asking => Enabled(config, s, e) <==> s.sched.available == [] || choice < |s.sched.available|
         case Running(_) => Enabled(config, s, e) <==> error == Some(Interrupted) ==> CancelCaller in schedule || s.stopped
         case Reporting(_, _) => Enabled(config, s, e) <==> forall v :: 0 <= v < config.workers ==> !s.phases[v].Stopping?
         case Returned => !Enabled(config, s, e)
         case _ => Enabled(config, s, e)
  {
    var s := At(config, schedule, |schedule|);
    AlwaysInv(config, schedule, |schedule|);
    FlagsAreEvents(config, schedule, |schedule|);
    assert schedule[..|schedule|] == schedule;
    assert s.once == InUse ==> s.phases[s.firstFailure.value.worker].Stopping?;
    forall v | 0 <= v < config.workers ensures s.phases[v].Stopping? ==> s.once == InUse {
      assert PhaseFits(s, v);
    }
  }

  // A run that was handed out, numbered from 1.
  ghost predicate WasIssued(s: State, issue: S.Issue) {
    issue.item < |s.sched.counts| && 1 <= issue.run <= s.sched.counts[issue.item]
  }

  ghost predicate RunsAreDistinct(s: State) {
    && (forall w :: 0 <= w < |s.phases| ==> IssueOf(s.phases[w]).Some? ==> WasIssued(s, IssueOf(s.phases[w]).value))
    && (forall v, w :: 0 <= v < w < |s.phases| && IssueOf(s.phases[v]).Some? ==> IssueOf(s.phases[v]) != IssueOf(s.phases[w]))
  }

  // A worker keeps its run, gives it up, or takes one that was never handed out before.
  lemma MoveIssue(s: State, w: nat, choice: nat, error: Option<Cause>)
    requires Ready(s, w, choice)
    ensures var p, (t, q) := s.phases[w], Move(s, w, choice, error);
      && (forall x :: WasIssued(s, x) ==> WasIssued(t, x))
      && (IssueOf(q) == IssueOf(p) || IssueOf(q).None? || (WasIssued(t, IssueOf(q).value) && !WasIssued(s, IssueOf(q).value)))
  {
    match s.phases[w]
    case Running(_) =>
    case _ =>
  }

  lemma ApplyKeepsRunsDistinct(config: Config, s: State, e: Event)
    requires RunsAreDistinct(s)
    ensures RunsAreDistinct(Apply(config, s, e))
  {
    hide Move;
    if e.Step? && Enabled(config, s, e) {
      MoveIssue(s, e.worker, e.choice, e.error);
      var (m, q) := Move(s, e.worker, e.choice, e.error);
      var t := Apply(config, s, e);
      assert t.sched == m.sched;
      assert forall x :: WasIssued(t, x) <==> WasIssued(m, x);
    }
  }

  /** No run is ever in the hands of two workers, and the runs of a pair that they hold are
      among the numbers 1, 2, 3, ... that were handed out for it. */
  lemma NoRunTwice(config: Config, schedule: seq<Event>, k: nat)
    requires k <= |schedule|
    ensures RunsAreDistinct(At(config, schedule, k))
  {
    forall s, e | RunsAreDistinct(s) ensures RunsAreDistinct(Next(config)(s, e)) {
      ApplyKeepsRunsDistinct(config, s, e);
    }
    Traces.StaysTrue(Init(config), Next(config), s => RunsAreDistinct(s), schedule, 0, k);
  }

  // ---------- What a finished run means ----------

  /** Success means every scheduled run succeeded; without a time limit every pair then
      completed exactly its configured number of runs. */
  lemma SuccessMeansEveryRunSucceeded(config: Config, schedule: seq<Event>, item: nat)
    requires Accepted(config) && item < config.pairs
    requires var s := At(config, schedule, |schedule|); AllReturned(s) && Result(s) == Success
    ensures var s := At(config, schedule, |schedule|);
      && |s.sched.counts| == |s.tallies| == config.pairs
      && s.sched.counts[item] == s.tallies[item].completed
      && (!config.timed ==> s.tallies[item].completed == config.runsPerPair)
  {
    var s := At(config, schedule, |schedule|);
    AlwaysInv(config, schedule, |schedule|);
    assert RunsAccounted(s, item);
    SumBetween(s.phases, Holds(item), 0, 0);
    if !config.timed {
      assert PhaseFits(s, 0);
      S.RemainingMeansAvailable(s.sched);
    }
  }

  // Some error has been returned and not forgotten.
  ghost predicate Tainted(s: State) {
    || WorkersCanceled(s) || s.firstFailure.Some?
    || exists w :: 0 <= w < |s.phases| && (s.phases[w].Errored? || s.phases[w].Reporting?)
  }

  lemma TaintStays(config: Config, s: State, e: Event)
    requires Flags(s) && Tainted(s)
    ensures Tainted(Apply(config, s, e))
  {
    var t := Apply(config, s, e);
    if e.Step? && Enabled(config, s, e) && !WorkersCanceled(s) && s.firstFailure.None? {
      var w :| 0 <= w < |s.phases| && (s.phases[w].Errored? || s.phases[w].Reporting?);
      if e.worker != w {
        assert t.phases[w] == s.phases[w];
      } else if s.phases[w].Errored? {
        assert t.phases[w].Reporting?;
      }
    }
  }

  lemma ErrorIsNoticed(config: Config, s: State, e: Event)
    requires e.Step? && e.error.Some? && Enabled(config, s, e) && s.phases[e.worker].Running?
    ensures Tainted(Apply(config, s, e))
  {
    assert Apply(config, s, e).phases[e.worker].Errored?;
  }

  /** No error is ever lost: if any comparison returned one, the pool does not report success,
      and unless the caller cancelled it reports the recorded failure. */
  lemma AnyErrorIsReported(config: Config, schedule: seq<Event>, j: nat)
    requires j < |schedule| && schedule[j].Step? && schedule[j].error.Some?
    requires Enabled(config, At(config, schedule, j), schedule[j])
    requires At(config, schedule, j).phases[schedule[j].worker].Running?
    requires AllReturned(At(config, schedule, |schedule|))
    ensures Result(At(config, schedule, |schedule|)) != Success
    ensures CancelCaller !in schedule ==> Result(At(config, schedule, |schedule|)).Failed?
  {
    hide Apply;
    hide Move;
    hide Shape;
    ErrorIsNoticed(config, At(config, schedule, j), schedule[j]);
    forall s, e | Flags(s) && Tainted(s) ensures Flags(Next(config)(s, e)) && Tainted(Next(config)(s, e)) {
      ApplyFlags(config, s, e);
      TaintStays(config, s, e);
    }
    AlwaysInv(config, schedule, j + 1);
    Traces.StaysTrue(Init(config), Next(config), s => Flags(s) && Tainted(s), schedule, j + 1, |schedule|);
    if CancelCaller !in schedule {
      FlagsAreEvents(config, schedule, |schedule|);
      assert schedule[..|schedule|] == schedule;
    }
  }

  // Event k is worker w's error test, and it finds the worker context uncancelled.
  ghost predicate TestPasses(config: Config, schedule: seq<Event>, k: nat, w: nat, issue: S.Issue, cause: Cause) {
    && k < |schedule| && schedule[k].Step? && schedule[k].worker == w
    && var s := At(config, schedule, k);
       w < |s.phases| && s.phases[w] == Errored(issue, cause) && !WorkersCanceled(s)
  }

  lemma {:induction false} ReportersPassedTheTest(config: Config, schedule: seq<Event>, k: nat, w: nat)
    requires k <= |schedule| && w < |At(config, schedule, k).phases| && At(config, schedule, k).phases[w].Reporting?
    ensures var p := At(config, schedule, k).phases[w];
      exists j: nat :: j < k && TestPasses(config, schedule, j, w, p.issue, p.cause)
    decreases k
  {
    if k == 0 {
    } else {
      var s, e := At(config, schedule, k - 1), schedule[k - 1];
      var p := At(config, schedule, k).phases[w];
      if s.phases[w] == p {
        ReportersPassedTheTest(config, schedule, k - 1, w);
      } else {
        assert TestPasses(config, schedule, k - 1, w, p.issue, p.cause);
      }
    }
  }

  /** The recorded failure is the root cause: it was returned by a run whose worker then saw
      an uncancelled context, and it is never a secondary cancellation error. An internal
      stop implies that it is already recorded. */
  lemma {:induction false} FirstFailureIsRootCause(config: Config, schedule: seq<Event>, k: nat)
    requires k <= |schedule|
    ensures var s := At(config, schedule, k);
      && (s.stopped ==> s.firstFailure.Some?)
      && (s.firstFailure.Some? ==> var f := s.firstFailure.value;
           f.cause == Genuine && exists j: nat :: j < k && TestPasses(config, schedule, j, f.worker, f.issue, f.cause))
    decreases k
  {
    AlwaysInv(config, schedule, k);
    if k == 0 {
    } else {
      var s, t := At(config, schedule, k - 1), At(config, schedule, k);
      FirstFailureIsRootCause(config, schedule, k - 1);
      if t.firstFailure.Some? && t.firstFailure != s.firstFailure {
        ReportersPassedTheTest(config, schedule, k - 1, t.firstFailure.value.worker);
      }
    }
  }

  /** Event j is a comparison that returns an error. */
  ghost predicate ReturnsError(config: Config, schedule: seq<Event>, j: nat) {
    && j < |schedule| && schedule[j].Step? && schedule[j].error.Some?
    && Enabled(config, At(config, schedule, j), schedule[j])
    && At(config, schedule, j).phases[schedule[j].worker].Running?
  }

  /** Event j is a worker's error test, and it finds the worker context uncancelled. */
  ghost predicate ErrorPasses(config: Config, schedule: seq<Event>, j: nat) {
    && j < |schedule| && schedule[j].Step?
    && var s, w := At(config, schedule, j), schedule[j].worker;
       w < |s.phases| && s.phases[w].Errored? && !WorkersCanceled(s)
  }

  lemma {:induction false} ErrorsWereReturned(config: Config, schedule: seq<Event>, k: nat, w: nat)
    requires k <= |schedule| && w < |At(config, schedule, k).phases| && At(config, schedule, k).phases[w].Errored?
    ensures exists j: nat :: j < k && ReturnsError(config, schedule, j)
    decreases k
  {
    if k == 0 {
    } else if At(config, schedule, k - 1).phases[w].Errored? {
      ErrorsWereReturned(config, schedule, k - 1, w);
    } else {
      assert ReturnsError(config, schedule, k - 1);
    }
  }

  // Some error has passed the test, and it is recorded or about to be.
  ghost predicate FailureDue(s: State) {
    s.firstFailure.Some? || exists w :: 0 <= w < |s.phases| && s.phases[w].Reporting?
  }

  lemma FailureStaysDue(config: Config, s: State, e: Event)
    requires Flags(s) && FailureDue(s)
    ensures FailureDue(Apply(config, s, e))
  {
    var t := Apply(config, s, e);
    if e.Step? && Enabled(config, s, e) && s.firstFailure.None? {
      var w :| 0 <= w < |s.phases| && s.phases[w].Reporting?;
      if e.worker != w {
        assert t.phases[w] == s.phases[w];
      }
    }
  }

  lemma PassedErrorsAreReported(config: Config, schedule: seq<Event>, j: nat)
    requires ErrorPasses(config, schedule, j) && AllReturned(At(config, schedule, |schedule|))
    ensures At(config, schedule, |schedule|).firstFailure.Some?
  {
    assert At(config, schedule, j + 1).phases[schedule[j].worker].Reporting?;
    hide Apply;
    hide Move;
    hide Shape;
    forall s, e | Flags(s) && FailureDue(s) ensures Flags(Next(config)(s, e)) && FailureDue(Next(config)(s, e)) {
      ApplyFlags(config, s, e);
      FailureStaysDue(config, s, e);
    }
    AlwaysInv(config, schedule, j + 1);
    Traces.StaysTrue(Init(config), Next(config), s => Flags(s) && FailureDue(s), schedule, j + 1, |schedule|);
  }

  /** The result of a finished run, exactly. It is a failure if and only if some error met an
      uncancelled context, it is success if and only if the caller did not cancel and no
      comparison returned an error, whether the duration ran out or not, and otherwise the
      pool was cancelled by the caller. */
  lemma ResultIsExact(config: Config, schedule: seq<Event>)
    requires AllReturned(At(config, schedule, |schedule|))
    ensures var result := Result(At(config, schedule, |schedule|));
      && (result.Failed? <==> exists j: nat :: ErrorPasses(config, schedule, j))
      && (result.Success? <==> CancelCaller !in schedule && !exists j: nat :: ReturnsError(config, schedule, j))
      && (result.Canceled? <==> CancelCaller in schedule && !exists j: nat :: ErrorPasses(config, schedule, j))
  {
    var s := At(config, schedule, |schedule|);
    FlagsAreEvents(config, schedule, |schedule|);
    assert schedule[..|schedule|] == schedule;
    FirstFailureIsRootCause(config, schedule, |schedule|);
    if s.firstFailure.Some? {
      var f := s.firstFailure.value;
      var j: nat :| j < |schedule| && TestPasses(config, schedule, j, f.worker, f.issue, f.cause);
      assert ErrorPasses(config, schedule, j);
    }
    if j: nat :| ErrorPasses(config, schedule, j) {
      PassedErrorsAreReported(config, schedule, j);
      ErrorsWereReturned(config, schedule, j, schedule[j].worker);
    }
    if j: nat :| ReturnsError(config, schedule, j) {
      AnyErrorIsReported(config, schedule, j);
    }
  }

  /** Once recorded, the first failure is never replaced, and it is what the pool returns, even
      if the caller cancels later. */
  lemma FirstFailureIsRecordedOnce(config: Config, schedule: seq<Event>, j: nat, k: nat)
    requires j <= k <= |schedule| && At(config, schedule, j).firstFailure.Some?
    ensures At(config, schedule, k).firstFailure == At(config, schedule, j).firstFailure
    ensures Result(At(config, schedule, k)) == Failed(At(config, schedule, j).firstFailure.value)
  {
    var f := At(config, schedule, j).firstFailure;
    AlwaysInv(config, schedule, j);
    forall s, e | Flags(s) && s.firstFailure == f
      ensures Flags(Next(config)(s, e)) && Next(config)(s, e).firstFailure == f
    {
      ApplyFlags(config, s, e);
    }
    Traces.StaysTrue(Init(config), Next(config), s => Flags(s) && s.firstFailure == f, schedule, j, k);
  }

  // ---------- Progress of one step ----------

  ghost function Weight(): Phase -> int {
    (p: Phase) =>
      match p
      case Checking => 2
      case Asking => 1
      case Running(_) => 5
      case Errored(_, _) => 4
      case Reporting(_, _) => 3
      case Stopping(_) => 2
      case Succeeded(_) => 3
      case Returned => 0
  }

  ghost function View(): Workers.View<State, Phase> {
    Workers.View((s: State) => s.sched, (s: State) => s.phases, (s: State) => SchedulingOver(s),
                 (p: Phase) => p.Asking?, Weight(), 5)
  }

  lemma MoveKind(s: State, w: nat, choice: nat, error: Option<Cause>)
    requires Ready(s, w, choice)
    ensures var p, (t, q) := s.phases[w], Move(s, w, choice, error);
      && t.phases == s.phases && (SchedulingOver(s) ==> SchedulingOver(t))
      && if p.Asking? && s.sched.available != []
         then S.CanIssue(s.sched, choice) && t.sched == S.AfterIssue(s.sched, choice) && q.Running?
         else t.sched == s.sched && Weight()(q) < Weight()(p) && (SchedulingOver(s) ==> !q.Asking?)
  {
    match s.phases[w]
    case Running(_) =>
    case _ =>
  }

  predicate WorkerSteps(config: Config, s: State, e: Event) {
    e.Step? && Enabled(config, s, e)
  }

  ghost function Steps(config: Config): (State, Event) -> bool {
    (s, e) => WorkerSteps(config, s, e)
  }

  lemma ApplyFollows(config: Config, s: State, e: Event)
    ensures Workers.Follows(View(), s, Apply(config, s, e), WorkerSteps(config, s, e))
  {
    hide Move;
    if WorkerSteps(config, s, e) {
      MoveKind(s, e.worker, e.choice, e.error);
      assert Workers.Moves(View(), s, Apply(config, s, e), e.worker, e.choice);
    }
  }

  lemma AlwaysFollows(config: Config)
    ensures forall s, e :: Workers.Follows(View(), s, Next(config)(s, e), Steps(config)(s, e))
  {
    hide Workers.Follows;
    hide Apply;
    forall s, e ensures Workers.Follows(View(), s, Next(config)(s, e), Steps(config)(s, e)) {
      ApplyFollows(config, s, e);
    }
  }

  // ---------- Bounded overrun ----------

  lemma EndedMeansOver(config: Config, schedule: seq<Event>, k: nat)
    requires k <= |schedule|
    ensures Ended(config, schedule, k) <==> SchedulingOver(At(config, schedule, k))
  {
    FlagsAreEvents(config, schedule, k);
  }

  // Workers that have passed the check and will ask for a run.
  ghost function PastTheCheck(s: State): int {
    Sum(s.phases, Workers.AskingOne(View()))
  }

  /** Once scheduling has ended, for whatever reason, only the workers that are past the check
      schedule one more run each; a failure leaves at most workers - 1 of them. */
  lemma BoundedOverrun(config: Config, schedule: seq<Event>, j: nat, k: nat)
    requires j <= k <= |schedule| && Ended(config, schedule, j)
    ensures S.Scheduled(At(config, schedule, k).sched) - S.Scheduled(At(config, schedule, j).sched)
         <= PastTheCheck(At(config, schedule, j))
    ensures PastTheCheck(At(config, schedule, j))
         <= if At(config, schedule, j).stopped then config.workers - 1 else config.workers
  {
    var s := At(config, schedule, j);
    AlwaysInv(config, schedule, j);
    EndedMeansOver(config, schedule, j);
    AlwaysFollows(config);
    Workers.BoundedOverrun(View(), Init(config), Next(config), Steps(config), schedule, j, k);
    SumBetween(s.phases, Workers.AskingOne(View()), 0, 1);
    if s.stopped {
      Workers.AllButOneAsk(View(), s.phases, s.firstFailure.value.worker);
    }
  }

  // ---------- Termination under a run limit ----------

  /** Worker steps taken in the first k events. */
  ghost function StepsTaken(config: Config, schedule: seq<Event>, k: nat): nat
    requires k <= |schedule|
  {
    Traces.Taken(Init(config), Next(config), Steps(config), schedule, k)
  }

  ghost function Budget(config: Config): int {
    5 * (config.pairs * config.runsPerPair) + 2 * config.workers
  }

  lemma WorkAtStart(config: Config)
    ensures Workers.Work(View())(Init(config)) == Budget(config)
  {
    S.RemainingAtStart(config.pairs, config.runsPerPair);
    SumBetween(Init(config).phases, Weight(), 2, 2);
  }

  /** With a run limit, executions that return, and any interleaving, the workers take no
      more steps in all than this budget. */
  lemma StepsAreBounded(config: Config, schedule: seq<Event>, k: nat)
    requires k <= |schedule| && config.runsPerPair > 0
    ensures 0 <= Workers.Work(View())(At(config, schedule, k)) <= Budget(config) - StepsTaken(config, schedule, k)
  {
    hide Workers.Work;
    hide Apply;
    AlwaysInv(config, schedule, k);
    Workers.WorkIsNonNegative(View(), At(config, schedule, k));
    hide Inv;
    WorkAtStart(config);
    AlwaysFollows(config);
    Workers.WorkIsUsed(View(), Init(config), Next(config), Steps(config), schedule, k);
  }

  /** No deadlock: until all workers have returned, some worker can take a step. */
  lemma SomeWorkerCanStep(config: Config, schedule: seq<Event>, k: nat)
    requires k <= |schedule| && !AllReturned(At(config, schedule, k))
    ensures exists e: Event :: e.Step? && Enabled(config, At(config, schedule, k), e)
  {
    AlwaysInv(config, schedule, k);
    StepWithoutError(config, At(config, schedule, k));
  }

  predicate Quiet(e: Event) {
    e.Step? && e.error.None?
  }

  lemma StepWithoutError(config: Config, s: State)
    requires Inv(config, s) && !AllReturned(s)
    ensures exists e :: Quiet(e) && Enabled(config, s, e)
  {
    var w :| 0 <= w < |s.phases| && s.phases[w] != Returned;
    if s.phases[w].Reporting? && s.once == InUse {
      assert Quiet(Step(s.firstFailure.value.worker, 0, None)) && Enabled(config, s, Step(s.firstFailure.value.worker, 0, None));
    } else {
      assert s.sched.available != [] ==> s.sched.available[0] in s.sched.available;
      assert Quiet(Step(w, 0, None)) && Enabled(config, s, Step(w, 0, None));
    }
  }

  lemma RestIsBounded(s: State)
    ensures 0 <= Workers.Rest(View())(s) <= 6 * |s.phases|
  {
    SumBetween(s.phases, Workers.RestOf(View()), 0, 6);
  }

  /** Once scheduling has ended, the workers take no more than six further steps each, run
      limit or not. */
  lemma WindsDown(config: Config, schedule: seq<Event>, j: nat, k: nat)
    requires j <= k <= |schedule| && Ended(config, schedule, j)
    ensures StepsTaken(config, schedule, k) - StepsTaken(config, schedule, j) <= 6 * config.workers
  {
    AlwaysInv(config, schedule, j);
    EndedMeansOver(config, schedule, j);
    AlwaysFollows(config);
    Workers.RestIsUsed(View(), Init(config), Next(config), Steps(config), schedule, j, k);
    RestIsBounded(At(config, schedule, j));
    RestIsBounded(At(config, schedule, k));
    hide Workers.Rest;
    hide Apply;
    hide Ended;
    hide Shape;
  }

  /** From every reachable state with a run limit, and from every state in which scheduling has
      ended, all workers can return without a further error. */
  lemma CanFinish(config: Config, schedule: seq<Event>) returns (finish: seq<Event>)
    requires config.runsPerPair > 0 || Ended(config, schedule, |schedule|)
    ensures forall e :: e in finish ==> Quiet(e)
    ensures AllReturned(At(config, schedule + finish, |schedule + finish|))
  {
    AlwaysInv(config, schedule, |schedule|);
    EndedMeansOver(config, schedule, |schedule|);
    AlwaysFollows(config);
    hide Apply;
    hide Ended;
    hide Workers.Follows;
    forall s | Inv(config, s) ensures Workers.Sound(View(), s) {
      InvIsSound(config, s);
    }
    hide Workers.Sound;
    forall s, e | Inv(config, s) ensures Inv(config, Next(config)(s, e)) {
      ApplyInv(config, s, e);
    }
    forall s | Inv(config, s) && !AllReturned(s) ensures exists e :: Quiet(e) && Steps(config)(s, e) {
      StepWithoutError(config, s);
      var e :| Quiet(e) && Enabled(config, s, e);
      assert Steps(config)(s, e);
    }
    assert Workers.WillEnd(View(), At(config, schedule, |schedule|));
    hide Inv;
    hide Enabled;
    hide AllReturned;
    finish := Workers.CanFinish(View(), Init(config), Next(config), Steps(config), s => Inv(config, s), s => AllReturned(s),
                                e => Quiet(e), schedule);
  }

  lemma InvIsSound(config: Config, s: State)
    requires Inv(config, s)
    ensures Workers.Sound(View(), s)
  {
    hide S.Valid;
  }

  // The pool ends by itself after at least one run, without error or cancellation.
  ghost predicate EndsWell(config: Config, schedule: seq<Event>) {
    && (forall e :: e in schedule ==> Quiet(e) || e.Expire?)
    && AllReturned(At(config, schedule, |schedule|)) && S.Scheduled(At(config, schedule, |schedule|).sched) > 0
  }

  lemma NoWorkersNoRuns(config: Config, schedule: seq<Event>)
    requires config.workers == 0
    ensures S.Scheduled(At(config, schedule, |schedule|).sched) == 0
  {
    var idle := Init(config).sched;
    Traces.StaysTrue(Init(config), Next(config), (s: State) => s.phases == [] && s.sched == idle, schedule, 0, |schedule|);
    SumBetween(idle.counts, Itself(), 0, 0);
  }

  lemma EndingWellNeedsAcceptance(config: Config, schedule: seq<Event>)
    requires EndsWell(config, schedule)
    ensures Accepted(config)
  {
    hide Apply;
    hide Move;
    hide Flags;
    var s := At(config, schedule, |schedule|);
    AlwaysInv(config, schedule, |schedule|);
    assert schedule[..|schedule|] == schedule;
    if config.workers == 0 {
      NoWorkersNoRuns(config, schedule);
    } else {
      ReturnsForAReason(config, schedule, |schedule|, 0);
      if s.stopped {
        StopNeedsError(config, schedule);
      }
    }
  }

  lemma StopNeedsError(config: Config, schedule: seq<Event>)
    requires At(config, schedule, |schedule|).stopped
    ensures exists e :: e in schedule && e.Step? && e.error.Some?
  {
    FirstFailureIsRootCause(config, schedule, |schedule|);
    var f := At(config, schedule, |schedule|).firstFailure.value;
    var j: nat :| j < |schedule| && TestPasses(config, schedule, j, f.worker, f.issue, f.cause);
    ErrorsWereReturned(config, schedule, j, f.worker);
    var i: nat :| i < j && ReturnsError(config, schedule, i);
    assert schedule[i] in schedule;
  }

  // Worker 0 takes a run, and then the duration ends if there is one.
  function FirstRun(config: Config): seq<Event> {
    [Step(0, 0, None), Step(0, 0, None)] + if config.timed then [Expire] else []
  }

  lemma FirstRunIsTaken(config: Config)
    requires Accepted(config)
    ensures var schedule := FirstRun(config);
      && (forall e :: e in schedule ==> Quiet(e) || e.Expire?)
      && S.Scheduled(At(config, schedule, |schedule|).sched) == 1
      && (config.runsPerPair > 0 || Ended(config, schedule, |schedule|))
  {
    var schedule := FirstRun(config);
    var s := At(config, schedule, 1);
    assert s == Init(config).(phases := Init(config).phases[0 := Asking]);
    S.IssueSchedulesOneRun(s.sched, 0);
    SumBetween(s.sched.counts, Itself(), 0, 0);
    assert At(config, schedule, 2).sched == S.AfterIssue(s.sched, 0);
    if config.timed {
      assert Expire == schedule[2] && Expire in schedule[..3];
    }
  }

  lemma EndWell(config: Config) returns (schedule: seq<Event>)
    requires Accepted(config)
    ensures EndsWell(config, schedule)
  {
    hide Apply;
    hide Move;
    hide Workers.Follows;
    hide FirstRun;
    hide Ended;
    hide Shape;
    var first := FirstRun(config);
    FirstRunIsTaken(config);
    var finish := CanFinish(config, first);
    schedule := first + finish;
    Traces.Prefix(Init(config), Next(config), first, finish, |first|);
    AlwaysFollows(config);
    Workers.ScheduledNeverFalls(View(), Init(config), Next(config), Steps(config), schedule, |first|, |schedule|);
  }

  /** The configurations that are let through are exactly those under which the pool can do
      something and then end by itself. */
  lemma AcceptedIff(config: Config)
    ensures Accepted(config) <==> exists schedule :: EndsWell(config, schedule)
  {
    if Accepted(config) {
      var schedule := EndWell(config);
    }
    if schedule :| EndsWell(config, schedule) {
      EndingWellNeedsAcceptance(config, schedule);
    }
  }
}
