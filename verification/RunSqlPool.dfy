// The worker pool of runSQLWorkload in dbHelper/run_sqls.go as a state machine, in the
// manner of ComparePool but with the other error policy: executions keep the caller's
// context, an internal failure stops only scheduling, and later failures are still
// counted. Every atomic counter update is a step of its own.
module RunSqlPool {
  import opened Basics
  import opened Utf8
  import Traces
  import S = Scheduler
  import Workers = WorkerPool

  datatype Config = Config(statements: nat, workers: nat, runsPerStatement: nat, timed: bool, ignoreErrors: bool)

  // One return of execute: which run, how many rows, and whether with an error.
  datatype Execution = Execution(issue: S.Issue, rows: int, failed: bool)

  datatype Phase =
    | Checking                       // select on schedulingCtx.Done()
    | Asking                         // scheduler.next()
    | Running(issue: S.Issue)        // inside execute
    | Errored(done: Execution)       // about to test ctx.Err()
    | CountingFailure(done: Execution) // about to add to failedRuns
    | CountingTotal(done: Execution) // about to add to totalFailures
    | AddingRows(done: Execution)    // about to add to returnedRows
    | Reporting(issue: S.Issue)      // about to enter failureOnce.Do
    | Stopping(issue: S.Issue)       // firstFailure is set, about to call stopScheduling
    | CountingSuccess(done: Execution) // about to add to succeededRuns
    | Returned

  datatype Once = Unused | InUse | Used

  datatype Failure = Failure(worker: nat, issue: S.Issue)

  // The atomic counters of one statement. The last two only record history: the returns
  // of execute that the caller's cancellation made worthless, and their rows.
  datatype Tally = Tally(succeeded: nat, failed: nat, returnedRows: int, dropped: nat, droppedRows: int)

  // log only records history: every return of execute.
  datatype State = State(
    sched: S.State,
    phases: seq<Phase>,
    callerCanceled: bool,
    expired: bool,
    stopped: bool,
    once: Once,
    firstFailure: Option<Failure>,
    tallies: seq<Tally>,
    totalFailures: int,
    log: seq<Execution>)

  datatype Event =
    | Step(worker: nat, choice: nat, rows: int, failed: bool)
    | CancelCaller
    | Expire

  datatype Outcome = Canceled | Failed(failure: Failure) | Finished(ignoredErrors: int)

  /** validateRunSQLConfig. */
  predicate Accepted(config: Config) {
    config.statements > 0 && config.workers > 0 && (config.timed || config.runsPerStatement > 0)
  }

  datatype ConfigError = NoCases | EmptyQuery(index: nat) | NoWorkers | NegativeDuration | NegativeRuns | NoLimit

  ghost predicate QueriesGiven(queries: seq<Bytes>, n: nat) {
    n <= |queries| && forall i :: 0 <= i < n ==> !IsBlank(queries[i])
  }

  /** The first check of validateRunSQLConfig that fails. */
  method ValidateRunSQLConfig(queries: seq<Bytes>, workers: int, duration: int, runsPerStatement: int, ignoreErrors: bool)
    returns (error: Option<ConfigError>)
    ensures var given := queries != [] && QueriesGiven(queries, |queries|);
      match error
      case Some(NoCases) => queries == []
      case Some(EmptyQuery(i)) => i < |queries| && IsBlank(queries[i]) && QueriesGiven(queries, i)
      case Some(NoWorkers) => given && workers <= 0
      case Some(NegativeDuration) => given && workers > 0 && duration < 0
      case Some(NegativeRuns) => given && workers > 0 && duration >= 0 && runsPerStatement < 0
      case Some(NoLimit) => given && workers > 0 && duration == runsPerStatement == 0
      case None => given && workers >= 0 && duration >= 0 && runsPerStatement >= 0
                   && Accepted(Config(|queries|, workers, runsPerStatement, duration > 0, ignoreErrors))
  {
    if queries == [] {
      return Some(NoCases);
    }
    for i := 0 to |queries|
      invariant QueriesGiven(queries, i)
    {
      if TrimLeft(queries[i]) == [] {
        return Some(EmptyQuery(i));
      }
    }
    if workers <= 0 {
      return Some(NoWorkers);
    }
    if duration < 0 {
      return Some(NegativeDuration);
    }
    if runsPerStatement < 0 {
      return Some(NegativeRuns);
    }
    if duration == 0 && runsPerStatement == 0 {
      return Some(NoLimit);
    }
    return None;
  }

  function Init(config: Config): State {
    State(S.Fresh(config.statements, config.runsPerStatement), seq(config.workers, _ => Checking),
          false, false, false, Unused, None,
          seq(config.statements, _ => Tally(0, 0, 0, 0, 0)), 0, [])
  }

  // schedulingCtx is done
  predicate SchedulingOver(s: State) {
    s.callerCanceled || s.stopped || s.expired
  }

  // Worker w is unfinished, and if it asks for a run it makes an in-range choice.
  predicate Ready(s: State, w: nat, choice: nat) {
    && w < |s.phases| && s.phases[w] != Returned
    && (s.phases[w].Asking? && s.sched.available != [] ==> S.CanIssue(s.sched, choice))
  }

  predicate Enabled(config: Config, s: State, e: Event) {
    match e
    case CancelCaller => true
    case Expire => config.timed
    case Step(w, choice, _, _) => Ready(s, w, choice) && (s.phases[w].Reporting? ==> s.once != InUse)
  }

  function Plus(t: Tally, d: Tally): Tally {
    Tally(t.succeeded + d.succeeded, t.failed + d.failed, t.returnedRows + d.returnedRows,
          t.dropped + d.dropped, t.droppedRows + d.droppedRows)
  }

  /** The next step of worker w: its effect on the shared data, and where the worker goes. */
  function Move(config: Config, s: State, w: nat, choice: nat, rows: int, failed: bool): (State, Phase)
    requires Ready(s, w, choice)
  {
    match s.phases[w]
    case Checking => (s, if SchedulingOver(s) then Returned else Asking)
    case Asking =>
      if s.sched.available == [] then (s, Returned)
      else (s.(sched := S.AfterIssue(s.sched, choice)), Running(S.Issued(s.sched, choice)))
    case Running(issue) =>
      var done := Execution(issue, rows, failed);
      (s.(log := s.log + [done]), if failed then Errored(done) else CountingSuccess(done))
    case Errored(done) =>
      if s.callerCanceled then (s.(tallies := Workers.Add(s.tallies, done.issue.item, Tally(0, 0, 0, 1, done.rows), Plus)), Returned)
      else (s, CountingFailure(done))
    case CountingFailure(done) =>
      (s.(tallies := Workers.Add(s.tallies, done.issue.item, Tally(0, 1, 0, 0, 0), Plus)), CountingTotal(done))
    case CountingTotal(done) => (s.(totalFailures := s.totalFailures + 1), AddingRows(done))
    case CountingSuccess(done) =>
      (s.(tallies := Workers.Add(s.tallies, done.issue.item, Tally(1, 0, 0, 0, 0), Plus)), AddingRows(done))
    case AddingRows(done) =>
      (s.(tallies := Workers.Add(s.tallies, done.issue.item, Tally(0, 0, done.rows, 0, 0), Plus)),
       if done.failed && !config.ignoreErrors then Reporting(done.issue) else Checking)
    case Reporting(issue) =>
      if s.once == Unused then (s.(once := InUse, firstFailure := Some(Failure(w, issue))), Stopping(issue))
      else (s, Returned)
    case Stopping(issue) => (s.(once := Used, stopped := true), Returned)
  }

  function Apply(config: Config, s: State, e: Event): State {
    if !Enabled(config, s, e) then s else
    match e
    case CancelCaller => s.(callerCanceled := true)
    case Expire => s.(expired := true)
    case Step(w, choice, rows, failed) =>
      var (t, phase) := Move(config, s, w, choice, rows, failed);
      t.(phases := s.phases[w := phase])
  }

  function Next(config: Config): (State, Event) -> State {
    (s, e) => Apply(config, s, e)
  }

  /** The state after the first k events of a schedule. */
  function At(config: Config, schedule: seq<Event>, k: nat): State
    requires k <= |schedule|
  {
    Traces.At(Init(config), Next(config), schedule, k)
  }

  predicate AllReturned(s: State) {
    forall w :: 0 <= w < |s.phases| ==> s.phases[w] == Returned
  }

  /** What runSQLWorkload returns once every worker has; both forms of Finished are success. */
  function Result(s: State): Outcome {
    if s.callerCanceled then Canceled
    else if s.firstFailure.Some? then Failed(s.firstFailure.value)
    else Finished(s.totalFailures)
  }

  // ---------- Accounts ----------

  function PendingOf(p: Phase): Option<Execution> {
    match p
    case Errored(done) => Some(done)
    case CountingFailure(done) => Some(done)
    case CountingTotal(done) => Some(done)
    case CountingSuccess(done) => Some(done)
    case AddingRows(done) => Some(done)
    case _ => None
  }

  // A run that was scheduled and is not counted yet, finished or not.
  ghost function InFlight(item: nat): Phase -> int {
    (p: Phase) =>
      match p
      case Running(issue) => if issue.item == item then 1 else 0
      case Errored(done) => if done.issue.item == item then 1 else 0
      case CountingFailure(done) => if done.issue.item == item then 1 else 0
      case CountingSuccess(done) => if done.issue.item == item then 1 else 0
      case _ => 0
  }

  ghost function UncountedFailure(item: nat): Phase -> int {
    (p: Phase) => if (p.Errored? || p.CountingFailure?) && PendingOf(p).value.issue.item == item then 1 else 0
  }

  ghost function UncountedSuccess(item: nat): Phase -> int {
    (p: Phase) => if p.CountingSuccess? && p.done.issue.item == item then 1 else 0
  }

  ghost function UncountedRows(item: nat): Phase -> int {
    (p: Phase) => if PendingOf(p).Some? && PendingOf(p).value.issue.item == item then PendingOf(p).value.rows else 0
  }

  ghost function UncountedTotal(): Phase -> int {
    (p: Phase) => if p.CountingTotal? then 1 else 0
  }

  ghost function LoggedFailure(item: nat): Execution -> int {
    (x: Execution) => if x.failed && x.issue.item == item then 1 else 0
  }

  ghost function LoggedSuccess(item: nat): Execution -> int {
    (x: Execution) => if !x.failed && x.issue.item == item then 1 else 0
  }

  ghost function LoggedRows(item: nat): Execution -> int {
    (x: Execution) => if x.issue.item == item then x.rows else 0
  }

  ghost function FailedOf(): Tally -> int {
    (t: Tally) => t.failed
  }

  ghost predicate Sized(config: Config, s: State) {
    |s.sched.counts| == |s.tallies| == config.statements
  }

  ghost predicate Shape(config: Config, s: State) {
    && Sized(config, s)
    && S.Valid(s.sched) && s.sched.limit == config.runsPerStatement
    && |s.phases| == config.workers
    && (s.expired ==> config.timed)
    && forall w :: 0 <= w < |s.phases| ==> PhaseShape(config, s.phases[w])
  }

  ghost predicate PhaseShape(config: Config, p: Phase) {
    match p
    case Running(issue) => issue.item < config.statements
    case Errored(done) => done.issue.item < config.statements && done.failed
    case CountingFailure(done) => done.issue.item < config.statements && done.failed
    case CountingTotal(done) => done.issue.item < config.statements && done.failed
    case CountingSuccess(done) => done.issue.item < config.statements && !done.failed
    case AddingRows(done) => done.issue.item < config.statements
    case Reporting(_) => !config.ignoreErrors
    case Stopping(_) => !config.ignoreErrors
    case _ => true
  }

  /** Every scheduled run is succeeded, failed, dropped, or still in flight. */
  ghost predicate RunsAccounted(config: Config, s: State, item: nat)
    requires Sized(config, s) && item < config.statements
  {
    s.sched.counts[item] == s.tallies[item].succeeded + s.tallies[item].failed + s.tallies[item].dropped + Sum(s.phases, InFlight(item))
  }

  ghost predicate SuccessesLogged(config: Config, s: State, item: nat)
    requires Sized(config, s) && item < config.statements
  {
    Sum(s.log, LoggedSuccess(item)) == s.tallies[item].succeeded + Sum(s.phases, UncountedSuccess(item))
  }

  ghost predicate FailuresLogged(config: Config, s: State, item: nat)
    requires Sized(config, s) && item < config.statements
  {
    Sum(s.log, LoggedFailure(item)) == s.tallies[item].failed + s.tallies[item].dropped + Sum(s.phases, UncountedFailure(item))
  }

  ghost predicate RowsLogged(config: Config, s: State, item: nat)
    requires Sized(config, s) && item < config.statements
  {
    Sum(s.log, LoggedRows(item)) == s.tallies[item].returnedRows + s.tallies[item].droppedRows + Sum(s.phases, UncountedRows(item))
  }

  /** The books of one statement balance. */
  ghost predicate Accounts(config: Config, s: State, item: nat)
    requires Sized(config, s) && item < config.statements
  {
    && RunsAccounted(config, s, item) && SuccessesLogged(config, s, item)
    && FailuresLogged(config, s, item) && RowsLogged(config, s, item)
  }

  ghost predicate TotalBalances(s: State) {
    s.totalFailures + Sum(s.phases, UncountedTotal()) == Sum(s.tallies, FailedOf())
  }

  // A worker whose counted failure has not reached failureOnce yet.
  ghost function OnItsWay(): Phase -> int {
    (p: Phase) => if (p.AddingRows? && p.done.failed) || p.Reporting? then 1 else 0
  }

  // A worker that is past counting its one failure.
  ghost function PastTotal(): Phase -> int {
    (p: Phase) => if (p.AddingRows? && p.done.failed) || p.Reporting? || p.Stopping? || p.Returned? then 1 else 0
  }

  ghost predicate FailuresTracked(config: Config, s: State) {
    && s.totalFailures >= 0
    && (!config.ignoreErrors && s.once == Unused ==> s.totalFailures == Sum(s.phases, OnItsWay()))
    && (!config.ignoreErrors ==> s.totalFailures <= Sum(s.phases, PastTotal()))
    && (s.once != Unused ==> s.totalFailures > 0 && !config.ignoreErrors)
  }

  ghost predicate Flags(s: State) {
    && (s.stopped <==> s.once == Used)
    && (s.firstFailure.None? <==> s.once == Unused)
    && (s.once != Unused ==> s.firstFailure.value.worker < |s.phases|)
    && (s.once == InUse ==> s.phases[s.firstFailure.value.worker].Stopping?)
    && (s.once == Used ==> s.phases[s.firstFailure.value.worker].Returned?)
    && (forall w :: 0 <= w < |s.phases| ==> PhaseFits(s, w))
  }

  ghost predicate PhaseFits(s: State, w: nat)
    requires w < |s.phases|
    requires s.firstFailure.None? <==> s.once == Unused
  {
    match s.phases[w]
    case Stopping(_) => s.once == InUse && s.firstFailure.value.worker == w
    case Returned => SchedulingOver(s) || s.sched.available == []
    case _ => true
  }

  // Only the caller's cancellation makes a run worthless.
  ghost predicate History(s: State) {
    forall i :: 0 <= i < |s.tallies| ==>
      s.tallies[i].dropped != 0 || s.tallies[i].droppedRows != 0 ==> s.callerCanceled
  }

  ghost predicate Inv(config: Config, s: State) {
    && Shape(config, s) && Flags(s) && History(s) && FailuresTracked(config, s) && TotalBalances(s)
    && forall i :: 0 <= i < config.statements ==> Accounts(config, s, i)
  }

  lemma InitAccounts(config: Config, i: nat)
    requires i < config.statements
    ensures Sized(config, Init(config)) && Accounts(config, Init(config), i)
  {
    var phases := Init(config).phases;
    SumBetween(phases, InFlight(i), 0, 0);
    SumBetween(phases, UncountedSuccess(i), 0, 0);
    SumBetween(phases, UncountedFailure(i), 0, 0);
    SumBetween(phases, UncountedRows(i), 0, 0);
  }

  lemma InitTotals(config: Config)
    ensures FailuresTracked(config, Init(config)) && TotalBalances(Init(config))
  {
    var s := Init(config);
    SumBetween(s.phases, UncountedTotal(), 0, 0);
    SumBetween(s.phases, OnItsWay(), 0, 0);
    SumBetween(s.phases, PastTotal(), 0, 0);
    SumBetween(s.tallies, FailedOf(), 0, 0);
  }

  lemma InitInv(config: Config)
    ensures Inv(config, Init(config))
  {
    S.FreshIsValid(config.statements, config.runsPerStatement);
    InitTotals(config);
    hide S.Valid;
    hide Accounts;
    hide FailuresTracked;
    hide TotalBalances;
    forall i | 0 <= i < config.statements ensures Accounts(config, Init(config), i) {
      InitAccounts(config, i);
    }
  }

  lemma IssueShape(config: Config, s: State, choice: nat)
    requires Shape(config, s) && S.CanIssue(s.sched, choice)
    ensures var t := s.(sched := S.AfterIssue(s.sched, choice));
      Sized(config, t) && S.Valid(t.sched) && t.sched.limit == config.runsPerStatement
    ensures S.Issued(s.sched, choice).item < config.statements
  {
    S.IssueKeepsValid(s.sched, choice);
  }

  lemma MoveShape(config: Config, s: State, w: nat, choice: nat, rows: int, failed: bool)
    requires Shape(config, s) && Ready(s, w, choice)
    ensures var (t, q) := Move(config, s, w, choice, rows, failed);
      && Sized(config, t) && S.Valid(t.sched) && t.sched.limit == config.runsPerStatement
      && (t.expired <==> s.expired) && PhaseShape(config, q)
  {
    hide S.Valid;
    hide S.AfterIssue;
    hide S.Issued;
    hide S.CanIssue;
    hide Workers.Add;
    assert PhaseShape(config, s.phases[w]);
    match s.phases[w]
    case Running(_) =>
    case Asking =>
      if s.sched.available != [] {
        IssueShape(config, s, choice);
      }
    case _ =>
  }

  lemma ApplyShape(config: Config, s: State, e: Event)
    requires Shape(config, s)
    ensures Shape(config, Apply(config, s, e))
  {
    hide S.Valid;
    hide Move;
    if e.Step? && Enabled(config, s, e) {
      MoveShape(config, s, e.worker, e.choice, e.rows, e.failed);
    }
  }

  lemma FitsAfter(config: Config, s: State, e: Event, v: nat)
    requires Flags(s) && v < |s.phases|
    ensures var t := Apply(config, s, e);
      |t.phases| == |s.phases| && (t.firstFailure.None? <==> t.once == Unused) && PhaseFits(t, v)
  {
    assert PhaseFits(s, v);
    if e.Step? && Enabled(config, s, e) {
      assert PhaseFits(s, e.worker);
      match s.phases[e.worker]
      case Running(_) =>
      case _ =>
    }
  }

  lemma ApplyFlags(config: Config, s: State, e: Event)
    requires Flags(s)
    ensures Flags(Apply(config, s, e))
  {
    var t := Apply(config, s, e);
    if e.Step? && Enabled(config, s, e) {
      assert PhaseFits(s, e.worker);
    }
    forall v | 0 <= v < |t.phases| ensures PhaseFits(t, v) {
      FitsAfter(config, s, e, v);
    }
  }

  lemma ApplyHistory(config: Config, s: State, e: Event)
    requires History(s)
    ensures History(Apply(config, s, e))
  {}

  ghost function Settled(s: State, item: nat): int
    requires item < |s.tallies|
  {
    s.tallies[item].succeeded + s.tallies[item].failed + s.tallies[item].dropped
  }

  // What one step appends to the log, measured by f.
  ghost function LogGain(s: State, w: nat, rows: int, failed: bool, f: Execution -> int): int
    requires w < |s.phases|
  {
    if s.phases[w].Running? then f(Execution(s.phases[w].issue, rows, failed)) else 0
  }

  lemma MoveLogs(config: Config, s: State, w: nat, choice: nat, rows: int, failed: bool, f: Execution -> int)
    requires Ready(s, w, choice)
    ensures Sum(Move(config, s, w, choice, rows, failed).0.log, f) == Sum(s.log, f) + LogGain(s, w, rows, failed, f)
  {
    if s.phases[w].Running? {
      SumAppend(s.log, [Execution(s.phases[w].issue, rows, failed)], f);
    }
  }

  // Whether this step schedules a run of the statement.
  ghost function Takes(s: State, w: nat, choice: nat, item: nat): int
    requires Ready(s, w, choice)
  {
    if s.phases[w].Asking? && s.sched.available != [] && s.sched.available[choice] == item then 1 else 0
  }

  // What one step changes, without the sums: every counter of a statement changes by just
  // what the worker's share of it changes.
  lemma MoveCounts(config: Config, s: State, w: nat, choice: nat, rows: int, failed: bool, item: nat)
    requires Ready(s, w, choice) && item < |s.sched.counts|
    ensures var t := Move(config, s, w, choice, rows, failed).0;
      item < |t.sched.counts| && t.sched.counts[item] == s.sched.counts[item] + Takes(s, w, choice, item)
  {
    hide Workers.Add;
    match s.phases[w]
    case Running(_) =>
    case _ =>
  }

  lemma MoveSettled(config: Config, s: State, w: nat, choice: nat, rows: int, failed: bool, item: nat)
    requires Ready(s, w, choice) && item < |s.tallies|
    ensures var (t, q) := Move(config, s, w, choice, rows, failed);
      && item < |t.tallies|
      && Settled(t, item) + InFlight(item)(q)
         == Settled(s, item) + InFlight(item)(s.phases[w]) + Takes(s, w, choice, item)
  {
    hide Workers.Add;
    var (t, q) := Move(config, s, w, choice, rows, failed);
    match s.phases[w]
    case Running(_) =>
    case _ =>
  }

  lemma MoveSuccesses(config: Config, s: State, w: nat, choice: nat, rows: int, failed: bool, item: nat)
    requires Ready(s, w, choice) && item < |s.tallies|
    ensures var (t, q) := Move(config, s, w, choice, rows, failed);
      && item < |t.tallies|
      && LogGain(s, w, rows, failed, LoggedSuccess(item))
         == t.tallies[item].succeeded - s.tallies[item].succeeded
            + UncountedSuccess(item)(q) - UncountedSuccess(item)(s.phases[w])
  {
    hide Workers.Add;
    var (t, q) := Move(config, s, w, choice, rows, failed);
    match s.phases[w]
    case Running(_) =>
    case _ =>
  }

  lemma MoveFailures(config: Config, s: State, w: nat, choice: nat, rows: int, failed: bool, item: nat)
    requires Ready(s, w, choice) && item < |s.tallies|
    ensures var (t, q) := Move(config, s, w, choice, rows, failed);
      && item < |t.tallies|
      && LogGain(s, w, rows, failed, LoggedFailure(item))
         == t.tallies[item].failed - s.tallies[item].failed + t.tallies[item].dropped - s.tallies[item].dropped
            + UncountedFailure(item)(q) - UncountedFailure(item)(s.phases[w])
  {
    hide Workers.Add;
    var (t, q) := Move(config, s, w, choice, rows, failed);
    match s.phases[w]
    case Running(_) =>
    case _ =>
  }

  lemma MoveRows(config: Config, s: State, w: nat, choice: nat, rows: int, failed: bool, item: nat)
    requires Ready(s, w, choice) && item < |s.tallies|
    ensures var (t, q) := Move(config, s, w, choice, rows, failed);
      && item < |t.tallies|
      && LogGain(s, w, rows, failed, LoggedRows(item))
         == t.tallies[item].returnedRows - s.tallies[item].returnedRows
            + t.tallies[item].droppedRows - s.tallies[item].droppedRows
            + UncountedRows(item)(q) - UncountedRows(item)(s.phases[w])
  {
    hide Workers.Add;
    var (t, q) := Move(config, s, w, choice, rows, failed);
    match s.phases[w]
    case Running(_) =>
    case _ =>
  }

  lemma StepAccounts(config: Config, s: State, e: Event, item: nat)
    requires Sized(config, s) && Sized(config, Apply(config, s, e)) && item < config.statements
    requires e.Step? && Enabled(config, s, e) && Accounts(config, s, item)
    ensures Accounts(config, Apply(config, s, e), item)
  {
    hide Move;
    MoveCounts(config, s, e.worker, e.choice, e.rows, e.failed, item);
    MoveSettled(config, s, e.worker, e.choice, e.rows, e.failed, item);
    MoveSuccesses(config, s, e.worker, e.choice, e.rows, e.failed, item);
    MoveFailures(config, s, e.worker, e.choice, e.rows, e.failed, item);
    MoveRows(config, s, e.worker, e.choice, e.rows, e.failed, item);
    MoveLogs(config, s, e.worker, e.choice, e.rows, e.failed, LoggedSuccess(item));
    MoveLogs(config, s, e.worker, e.choice, e.rows, e.failed, LoggedFailure(item));
    MoveLogs(config, s, e.worker, e.choice, e.rows, e.failed, LoggedRows(item));
    var q := Move(config, s, e.worker, e.choice, e.rows, e.failed).1;
    SumUpdate(s.phases, e.worker, q, InFlight(item));
    SumUpdate(s.phases, e.worker, q, UncountedSuccess(item));
    SumUpdate(s.phases, e.worker, q, UncountedFailure(item));
    SumUpdate(s.phases, e.worker, q, UncountedRows(item));
  }

  lemma MoveFailedSum(config: Config, s: State, w: nat, choice: nat, rows: int, failed: bool)
    requires Ready(s, w, choice) && PhaseShape(config, s.phases[w]) && |s.tallies| == config.statements
    ensures var (t, q) := Move(config, s, w, choice, rows, failed);
      Sum(t.tallies, FailedOf()) - Sum(s.tallies, FailedOf())
      == t.totalFailures - s.totalFailures + UncountedTotal()(q) - UncountedTotal()(s.phases[w])
  {
    var t := Move(config, s, w, choice, rows, failed).0;
    if PendingOf(s.phases[w]).Some? && t.tallies != s.tallies {
      var item := PendingOf(s.phases[w]).value.issue.item;
      SumUpdate(s.tallies, item, t.tallies[item], FailedOf());
    }
    match s.phases[w]
    case Running(_) =>
    case _ =>
  }

  lemma StepTotal(config: Config, s: State, e: Event)
    requires e.Step? && Enabled(config, s, e) && TotalBalances(s)
    requires PhaseShape(config, s.phases[e.worker]) && |s.tallies| == config.statements
    ensures TotalBalances(Apply(config, s, e))
  {
    hide Move;
    MoveFailedSum(config, s, e.worker, e.choice, e.rows, e.failed);
    SumUpdate(s.phases, e.worker, Move(config, s, e.worker, e.choice, e.rows, e.failed).1, UncountedTotal());
  }

  // The local part of FailuresTracked.
  lemma MoveTracks(config: Config, s: State, w: nat, choice: nat, rows: int, failed: bool)
    requires Ready(s, w, choice) && PhaseShape(config, s.phases[w])
    requires (s.once == Unused <==> s.firstFailure.None?) && (s.phases[w].Stopping? ==> s.once == InUse)
    ensures var p, (t, q) := s.phases[w], Move(config, s, w, choice, rows, failed);
      && (s.once == Unused && !p.Reporting? ==> t.once == Unused)
      && (s.once == Unused && p.Reporting? ==> t.once == InUse)
      && (s.once != Unused ==> t.once != Unused)
      && t.totalFailures - s.totalFailures == (if p.CountingTotal? then 1 else 0)
      && (config.ignoreErrors || p.Reporting? || t.totalFailures - s.totalFailures == OnItsWay()(q) - OnItsWay()(p))
      && (config.ignoreErrors || t.totalFailures - s.totalFailures <= PastTotal()(q) - PastTotal()(p))
  {
    match s.phases[w]
    case Running(_) =>
    case _ =>
  }

  lemma StepTracking(config: Config, s: State, e: Event)
    requires Flags(s) && e.Step? && Enabled(config, s, e) && FailuresTracked(config, s)
    requires PhaseShape(config, s.phases[e.worker])
    ensures FailuresTracked(config, Apply(config, s, e))
  {
    hide Move;
    assert PhaseFits(s, e.worker);
    MoveTracks(config, s, e.worker, e.choice, e.rows, e.failed);
    var q := Move(config, s, e.worker, e.choice, e.rows, e.failed).1;
    SumUpdate(s.phases, e.worker, q, OnItsWay());
    SumUpdate(s.phases, e.worker, q, PastTotal());
    SumAtLeast(s.phases, e.worker, OnItsWay());
  }

  lemma {:induction false} ApplyInv(config: Config, s: State, e: Event)
    requires Inv(config, s)
    ensures Inv(config, Apply(config, s, e))
  {
    ApplyShape(config, s, e);
    ApplyFlags(config, s, e);
    ApplyHistory(config, s, e);
    var stepping := e.Step? && Enabled(config, s, e);
    if stepping {
      assert PhaseShape(config, s.phases[e.worker]);
      StepTotal(config, s, e);
      StepTracking(config, s, e);
    }
    forall i | 0 <= i < config.statements ensures Accounts(config, Apply(config, s, e), i) {
      assert Accounts(config, s, i);
      if stepping {
        StepAccounts(config, s, e, i);
      }
    }
  }

  /** The invariant holds in every reachable state. */
  lemma AlwaysInv(config: Config, schedule: seq<Event>, k: nat)
    requires k <= |schedule|
    ensures Inv(config, At(config, schedule, k))
  {
    InitInv(config);
    forall s, e | Inv(config, s) ensures Inv(config, Next(config)(s, e)) {
      ApplyInv(config, s, e);
    }
    Traces.StaysTrue(Init(config), Next(config), s => Inv(config, s), schedule, 0, k);
  }

  /** The caller's cancellation and the end of the duration are just the events of that name. */
  lemma FlagsAreEvents(config: Config, schedule: seq<Event>, k: nat)
    requires k <= |schedule|
    ensures At(config, schedule, k).callerCanceled <==> CancelCaller in schedule[..k]
    ensures At(config, schedule, k).expired <==> config.timed && Expire in schedule[..k]
  {
    Traces.FlagIsEvent(Init(config), Next(config), (s: State) => s.callerCanceled, CancelCaller, schedule, k);
    if config.timed {
      Traces.FlagIsEvent(Init(config), Next(config), (s: State) => s.expired, Expire, schedule, k);
    } else {
      AlwaysInv(config, schedule, k);
    }
  }

  /** What ends scheduling: the caller's cancellation, the end of the duration, a failure. */
  ghost predicate Ended(config: Config, schedule: seq<Event>, k: nat)
    requires k <= |schedule|
  {
    CancelCaller in schedule[..k] || (config.timed && Expire in schedule[..k]) || At(config, schedule, k).stopped
  }

  /** A worker has returned only because scheduling had ended or every statement had all its runs. */
  lemma ReturnsForAReason(config: Config, schedule: seq<Event>, k: nat, w: nat)
    requires k <= |schedule| && w < |At(config, schedule, k).phases| && At(config, schedule, k).phases[w] == Returned
    ensures var s := At(config, schedule, k);
      || Ended(config, schedule, k) || config.statements == 0
      || (config.runsPerStatement > 0 && forall i :: 0 <= i < config.statements ==> i < |s.sched.counts| && s.sched.counts[i] == config.runsPerStatement)
  {
    var s := At(config, schedule, k);
    AlwaysInv(config, schedule, k);
    FlagsAreEvents(config, schedule, k);
    assert PhaseFits(s, w);
    if s.sched.available == [] && config.statements > 0 {
      assert 0 !in s.sched.available;
      S.RemainingMeansAvailable(s.sched);
    }
  }

  // Event k is worker w's check, and scheduling has not ended.
  ghost predicate CheckPasses(config: Config, schedule: seq<Event>, k: nat, w: nat) {
    && k < |schedule| && schedule[k].Step? && schedule[k].worker == w
    && var s := At(config, schedule, k);
       w < |s.phases| && s.phases[w].Checking? && !Ended(config, schedule, k)
  }

  /** No run is taken on an old check: since a worker about to ask passed the check, it has
      done nothing else. */
  lemma {:induction false} AskersPassedTheCheck(config: Config, schedule: seq<Event>, k: nat, w: nat)
    requires k <= |schedule| && w < |At(config, schedule, k).phases| && At(config, schedule, k).phases[w].Asking?
    ensures exists j: nat :: j < k && CheckPasses(config, schedule, j, w)
                             && forall m :: j < m < k ==> schedule[m].Step? ==> schedule[m].worker == w ==> !Enabled(config, At(config, schedule, m), schedule[m])
    decreases k
  {
    if k == 0 {
    } else {
      var s, e := At(config, schedule, k - 1), schedule[k - 1];
      FlagsAreEvents(config, schedule, k - 1);
      if s.phases[w].Asking? {
        AskersPassedTheCheck(config, schedule, k - 1, w);
      } else {
        assert CheckPasses(config, schedule, k - 1, w);
      }
    }
  }

  /** The model leaves out no run: at any moment the caller may cancel and a timer expire, every
      choice of an available statement is possible, and an execution may end with any number
      of rows, with or without an error. A worker waits only for the one that is recording its
      failure. */
  lemma NothingIsExcluded(config: Config, schedule: seq<Event>, w: nat, choice: nat, rows: int, failed: bool)
    requires w < config.workers
    ensures var s, e := At(config, schedule, |schedule|), Step(w, choice, rows, failed);
      && |s.phases| == config.workers
      && Enabled(config, s, CancelCaller) && (Enabled(config, s, Expire) <==> config.timed)
      && match s.phases[w]
         case Asking => Enabled(config, s, e) <==> s.sched.available == [] || choice < |s.sched.available|
         case Reporting(_) => Enabled(config, s, e) <==> forall v :: 0 <= v < config.workers ==> !s.phases[v].Stopping?
         case Returned => !Enabled(config, s, e)
         case _ => Enabled(config, s, e)
  {
    var s := At(config, schedule, |schedule|);
    AlwaysInv(config, schedule, |schedule|);
    assert s.once == InUse ==> s.phases[s.firstFailure.value.worker].Stopping?;
    forall v | 0 <= v < config.workers ensures s.phases[v].Stopping? ==> s.once == InUse {
      assert PhaseFits(s, v);
    }
  }

  // A run that was handed out, numbered from 1.
  ghost predicate WasIssued(s: State, issue: S.Issue) {
    issue.item < |s.sched.counts| && 1 <= issue.run <= s.sched.counts[issue.item]
  }

  ghost predicate IsNew(s: State, issue: S.Issue) {
    forall i :: 0 <= i < |s.log| ==> s.log[i].issue != issue
  }

  // Executions in progress and in the log are all of different runs.
  ghost predicate RunsAreDistinct(s: State) {
    && (forall i :: 0 <= i < |s.log| ==> WasIssued(s, s.log[i].issue))
    && (forall i, j :: 0 <= i < j < |s.log| ==> s.log[i].issue != s.log[j].issue)
    && (forall w :: 0 <= w < |s.phases| && s.phases[w].Running? ==> WasIssued(s, s.phases[w].issue) && IsNew(s, s.phases[w].issue))
    && (forall v, w :: 0 <= v < w < |s.phases| && s.phases[v].Running? ==> s.phases[v] != s.phases[w])
  }

  // A worker takes a run that was never handed out before, or ends the execution of its run.
  lemma MoveRun(config: Config, s: State, w: nat, choice: nat, rows: int, failed: bool)
    requires Ready(s, w, choice)
    ensures var p, (t, q) := s.phases[w], Move(config, s, w, choice, rows, failed);
      && (forall x :: WasIssued(s, x) ==> WasIssued(t, x))
      && (q.Running? ==> WasIssued(t, q.issue) && !WasIssued(s, q.issue))
      && t.log == if p.Running? then s.log + [Execution(p.issue, rows, failed)] else s.log
  {
    match s.phases[w]
    case Running(_) =>
    case _ =>
  }

  lemma ApplyKeepsRunsDistinct(config: Config, s: State, e: Event)
    requires RunsAreDistinct(s)
    ensures RunsAreDistinct(Apply(config, s, e))
  {
    hide Move;
    if e.Step? && Enabled(config, s, e) {
      MoveRun(config, s, e.worker, e.choice, e.rows, e.failed);
      var (m, q) := Move(config, s, e.worker, e.choice, e.rows, e.failed);
      var t := Apply(config, s, e);
      assert t.sched == m.sched && t.log == m.log;
      assert forall x :: WasIssued(t, x) <==> WasIssued(m, x);
    }
  }

  /** No run is ever executed twice, and the executed runs of a statement are among the numbers
      1, 2, 3, ... that were handed out for it. */
  lemma NoRunTwice(config: Config, schedule: seq<Event>, k: nat)
    requires k <= |schedule|
    ensures RunsAreDistinct(At(config, schedule, k))
  {
    forall s, e | RunsAreDistinct(s) ensures RunsAreDistinct(Next(config)(s, e)) {
      ApplyKeepsRunsDistinct(config, s, e);
    }
    Traces.StaysTrue(Init(config), Next(config), s => RunsAreDistinct(s), schedule, 0, k);
  }

  // ---------- What a finished workload means ----------

  /** Unless the caller cancelled, at the end every scheduled run is counted once as succeeded
      or failed, exactly as the log of executions says, the returned rows are the rows of all
      runs, and the failure total is the sum over the statements. */
  lemma FinishedBooksBalance(config: Config, schedule: seq<Event>, item: nat)
    requires item < config.statements
    requires var s := At(config, schedule, |schedule|); AllReturned(s) && !s.callerCanceled
    ensures var s := At(config, schedule, |schedule|);
      && |s.sched.counts| == |s.tallies| == config.statements
      && s.sched.counts[item] == s.tallies[item].succeeded + s.tallies[item].failed
      && s.tallies[item].succeeded == Sum(s.log, LoggedSuccess(item))
      && s.tallies[item].failed == Sum(s.log, LoggedFailure(item))
      && s.tallies[item].returnedRows == Sum(s.log, LoggedRows(item))
      && s.totalFailures == Sum(s.tallies, FailedOf())
  {
    var s := At(config, schedule, |schedule|);
    AlwaysInv(config, schedule, |schedule|);
    assert Accounts(config, s, item);
    SumBetween(s.phases, InFlight(item), 0, 0);
    SumBetween(s.phases, UncountedSuccess(item), 0, 0);
    SumBetween(s.phases, UncountedFailure(item), 0, 0);
    SumBetween(s.phases, UncountedRows(item), 0, 0);
    SumBetween(s.phases, UncountedTotal(), 0, 0);
  }

  /** At every moment, a scheduled run is succeeded, failed, dropped or in flight. */
  lemma RunsAreAlwaysAccounted(config: Config, schedule: seq<Event>, k: nat, item: nat)
    requires k <= |schedule| && item < config.statements
    ensures var s := At(config, schedule, k); Shape(config, s) && RunsAccounted(config, s, item)
  {
    AlwaysInv(config, schedule, k);
    assert Accounts(config, At(config, schedule, k), item);
  }

  /** When errors are not ignored, a failure is recorded if and only if some failure was
      counted, and no more failures are counted than there are workers. */
  lemma StrictErrorPolicy(config: Config, schedule: seq<Event>)
    requires !config.ignoreErrors
    requires AllReturned(At(config, schedule, |schedule|))
    ensures var s := At(config, schedule, |schedule|);
      && (s.firstFailure.Some? <==> s.totalFailures > 0)
      && s.totalFailures <= config.workers
      && (Result(s).Failed? <==> s.totalFailures > 0 && !s.callerCanceled)
  {
    var s := At(config, schedule, |schedule|);
    AlwaysInv(config, schedule, |schedule|);
    SumBetween(s.phases, OnItsWay(), 0, 0);
    SumBetween(s.phases, PastTotal(), 0, 1);
  }

  // Some execution of this run returned an error.
  ghost predicate Failing(log: seq<Execution>, issue: S.Issue) {
    exists rows :: Execution(issue, rows, true) in log
  }

  ghost predicate PhaseHasCause(s: State, p: Phase) {
    match p
    case Errored(done) => done.failed && done in s.log
    case CountingFailure(done) => done.failed && done in s.log
    case CountingTotal(done) => done.failed && done in s.log
    case AddingRows(done) => done in s.log
    case CountingSuccess(done) => done in s.log
    case Reporting(issue) => Failing(s.log, issue)
    case _ => true
  }

  ghost predicate Causes(s: State) {
    && (s.firstFailure.Some? ==> Failing(s.log, s.firstFailure.value.issue))
    && forall w :: 0 <= w < |s.phases| ==> PhaseHasCause(s, s.phases[w])
  }

  lemma MoveHasCause(config: Config, s: State, w: nat, choice: nat, rows: int, failed: bool)
    requires Ready(s, w, choice) && Causes(s)
    ensures var (t, q) := Move(config, s, w, choice, rows, failed);
      && s.log <= t.log && PhaseHasCause(t, q)
      && (t.firstFailure.Some? ==> Failing(t.log, t.firstFailure.value.issue))
  {
    assert PhaseHasCause(s, s.phases[w]);
    match s.phases[w]
    case AddingRows(done) =>
      assert done == Execution(done.issue, done.rows, done.failed);
    case _ =>
  }

  lemma LongerLogKeepsCause(s: State, t: State, p: Phase)
    requires s.log <= t.log && PhaseHasCause(s, p)
    ensures PhaseHasCause(t, p)
  {
    assert forall x :: x in s.log ==> x in t.log;
  }

  lemma ApplyKeepsCauses(config: Config, s: State, e: Event)
    requires Causes(s)
    ensures Causes(Apply(config, s, e))
  {
    hide Move;
    var t := Apply(config, s, e);
    if e.Step? && Enabled(config, s, e) {
      MoveHasCause(config, s, e.worker, e.choice, e.rows, e.failed);
      var q := Move(config, s, e.worker, e.choice, e.rows, e.failed).1;
      forall w | 0 <= w < |t.phases| ensures PhaseHasCause(t, t.phases[w]) {
        if w == e.worker {
          LongerLogKeepsCause(Move(config, s, e.worker, e.choice, e.rows, e.failed).0, t, q);
        } else {
          LongerLogKeepsCause(s, t, s.phases[w]);
        }
      }
    } else {
      forall w | 0 <= w < |t.phases| ensures PhaseHasCause(t, t.phases[w]) {
        LongerLogKeepsCause(s, t, s.phases[w]);
      }
    }
  }

  /** The failure that the workload returns is a run whose execution did return an error. */
  lemma RecordedFailureDidFail(config: Config, schedule: seq<Event>, k: nat)
    requires k <= |schedule|
    ensures var s := At(config, schedule, k);
      Result(s).Failed? ==> Failing(s.log, Result(s).failure.issue)
  {
    CausesAlways(config, schedule, k);
  }

  lemma CausesAlways(config: Config, schedule: seq<Event>, k: nat)
    requires k <= |schedule|
    ensures Causes(At(config, schedule, k))
  {
    forall s, e | Causes(s) ensures Causes(Next(config)(s, e)) {
      ApplyKeepsCauses(config, s, e);
    }
    Traces.StaysTrue(Init(config), Next(config), s => Causes(s), schedule, 0, k);
  }

  ghost predicate LogFits(config: Config, s: State) {
    Shape(config, s) && forall x :: x in s.log ==> x.issue.item < config.statements
  }

  lemma ApplyLogFits(config: Config, s: State, e: Event)
    requires LogFits(config, s)
    ensures LogFits(config, Apply(config, s, e))
  {
    ApplyShape(config, s, e);
    if e.Step? && Enabled(config, s, e) {
      assert PhaseShape(config, s.phases[e.worker]);
      hide Shape;
      match s.phases[e.worker]
      case Running(_) =>
      case _ =>
    }
  }

  // This event ends an execution, with an error.
  ghost predicate Fails(config: Config, s: State, e: Event) {
    e.Step? && e.failed && Enabled(config, s, e) && s.phases[e.worker].Running?
  }

  /** The number of executions among the first k events that return an error. */
  ghost function FailedExecutions(config: Config, schedule: seq<Event>, k: nat): nat
    requires k <= |schedule|
  {
    Traces.Taken(Init(config), Next(config), (s, e) => Fails(config, s, e), schedule, k)
  }

  ghost function AnyFailure(): Execution -> int {
    (x: Execution) => if x.failed then 1 else 0
  }

  lemma {:induction false} LogCountsFailures(config: Config, schedule: seq<Event>, k: nat)
    requires k <= |schedule|
    ensures Sum(At(config, schedule, k).log, AnyFailure()) == FailedExecutions(config, schedule, k)
    decreases k
  {
    hide Move;
    if k == 0 {
    } else {
      LogCountsFailures(config, schedule, k - 1);
      var s, e := At(config, schedule, k - 1), schedule[k - 1];
      if e.Step? && Enabled(config, s, e) {
        MoveRun(config, s, e.worker, e.choice, e.rows, e.failed);
        if s.phases[e.worker].Running? {
          SumAppend(s.log, [Execution(s.phases[e.worker].issue, e.rows, e.failed)], AnyFailure());
        }
      }
    }
  }

  lemma {:induction false} SomeFailure(log: seq<Execution>)
    ensures 0 <= Sum(log, AnyFailure())
    ensures Sum(log, AnyFailure()) > 0 <==> exists x :: x in log && x.failed
  {
    if log == [] {
    } else {
      SomeFailure(log[1..]);
      assert forall x :: x in log <==> x == log[0] || x in log[1..];
    }
  }

  ghost function FailuresOf(log: seq<Execution>, statements: nat): seq<int> {
    seq(statements, i requires 0 <= i => Sum(log, LoggedFailure(i)))
  }

  ghost function Plain(): int -> int {
    (n: int) => n
  }

  // The failures of the statements add up to the failures in the log.
  lemma {:induction false} FailuresAddUp(log: seq<Execution>, statements: nat)
    requires forall x :: x in log ==> x.issue.item < statements
    ensures Sum(FailuresOf(log, statements), Plain()) == Sum(log, AnyFailure())
  {
    var totals := FailuresOf(log, statements);
    if log == [] {
      SumBetween(totals, Plain(), 0, 0);
    } else {
      var item, rest := log[0].issue.item, FailuresOf(log[1..], statements);
      FailuresAddUp(log[1..], statements);
      assert log[0] in log;
      SumUpdate(rest, item, totals[item], Plain());
      assert totals == rest[item := totals[item]];
    }
  }

  lemma FittingLog(config: Config, schedule: seq<Event>, k: nat)
    requires k <= |schedule|
    ensures LogFits(config, At(config, schedule, k))
  {
    InitInv(config);
    forall s, e | LogFits(config, s) ensures LogFits(config, Next(config)(s, e)) {
      ApplyLogFits(config, s, e);
    }
    Traces.StaysTrue(Init(config), Next(config), s => LogFits(config, s), schedule, 0, k);
  }

  lemma TotalIsFailedExecutions(config: Config, schedule: seq<Event>)
    requires var s := At(config, schedule, |schedule|); AllReturned(s) && !s.callerCanceled
    ensures At(config, schedule, |schedule|).totalFailures == FailedExecutions(config, schedule, |schedule|)
  {
    var s := At(config, schedule, |schedule|);
    var totals := FailuresOf(s.log, config.statements);
    FittingLog(config, schedule, |schedule|);
    LogCountsFailures(config, schedule, |schedule|);
    FailuresAddUp(s.log, config.statements);
    AlwaysInv(config, schedule, |schedule|);
    SumBetween(s.phases, UncountedTotal(), 0, 0);
    forall i | 0 <= i < config.statements ensures FailedOf()(s.tallies[i]) == Plain()(totals[i]) {
      FinishedBooksBalance(config, schedule, i);
    }
    SumPointwise(s.tallies, FailedOf(), totals, Plain());
  }

  /** The result of a finished workload, exactly. It is a cancellation if and only if the caller
      cancelled; otherwise it is success if errors are ignored or no execution returned one,
      with the number of executions that did, whether the duration ran out or not; and
      otherwise a failure. */
  lemma ResultIsExact(config: Config, schedule: seq<Event>)
    requires AllReturned(At(config, schedule, |schedule|))
    ensures var result, failures := Result(At(config, schedule, |schedule|)), FailedExecutions(config, schedule, |schedule|);
      && (result.Canceled? <==> CancelCaller in schedule)
      && (result.Finished? <==> CancelCaller !in schedule && (config.ignoreErrors || failures == 0))
      && (result.Failed? <==> CancelCaller !in schedule && !config.ignoreErrors && failures > 0)
      && (result.Finished? ==> result.ignoredErrors == failures)
  {
    var s := At(config, schedule, |schedule|);
    FlagsAreEvents(config, schedule, |schedule|);
    assert schedule[..|schedule|] == schedule;
    if !s.callerCanceled {
      TotalIsFailedExecutions(config, schedule);
      AlwaysInv(config, schedule, |schedule|);
      if !config.ignoreErrors {
        StrictErrorPolicy(config, schedule);
      }
    }
  }

  /** No error is ever lost: when errors are not ignored and the caller does not cancel, the
      workload returns a failure if and only if some execution returned an error. */
  lemma AnyErrorIsReported(config: Config, schedule: seq<Event>)
    requires !config.ignoreErrors
    requires var s := At(config, schedule, |schedule|); AllReturned(s) && !s.callerCanceled
    ensures var s := At(config, schedule, |schedule|);
      Result(s).Failed? <==> exists x :: x in s.log && x.failed
  {
    var s := At(config, schedule, |schedule|);
    RecordedFailureDidFail(config, schedule, |schedule|);
    StrictErrorPolicy(config, schedule);
    if x :| x in s.log && x.failed {
      FittingLog(config, schedule, |schedule|);
      var item := x.issue.item;
      FinishedBooksBalance(config, schedule, item);
      var i :| 0 <= i < |s.log| && s.log[i] == x;
      SumAtLeast(s.log, i, LoggedFailure(item));
      SumAtLeast(s.tallies, item, FailedOf());
    }
  }

  /** Once recorded, the first failure is never replaced, and it is what the workload returns
      unless the caller cancels. */
  lemma FirstFailureIsRecordedOnce(config: Config, schedule: seq<Event>, j: nat, k: nat)
    requires j <= k <= |schedule| && At(config, schedule, j).firstFailure.Some?
    ensures var f, t := At(config, schedule, j).firstFailure, At(config, schedule, k);
      t.firstFailure == f && (!t.callerCanceled ==> Result(t) == Failed(f.value))
  {
    var f := At(config, schedule, j).firstFailure;
    AlwaysInv(config, schedule, j);
    forall s, e | Flags(s) && s.firstFailure == f
      ensures Flags(Next(config)(s, e)) && Next(config)(s, e).firstFailure == f
    {
      ApplyFlags(config, s, e);
    }
    Traces.StaysTrue(Init(config), Next(config), s => Flags(s) && s.firstFailure == f, schedule, j, k);
  }

  // ---------- Failures that are counted after the stop ----------

  /** A failure has stopped scheduling, and then another one is counted. */
  ghost predicate CountsAfterStop(config: Config, schedule: seq<Event>, j: nat) {
    && j <= |schedule| && At(config, schedule, j).stopped
    && At(config, schedule, j).totalFailures < At(config, schedule, |schedule|).totalFailures
  }

  // Workers 0 and 1 take a run each; worker 0 fails all the way to its return, and then
  // worker 1 fails up to the failure counter.
  function LateFailure(): seq<Event> {
    seq(15, i => Step(if i == 1 || i == 3 || i >= 11 then 1 else 0, 0, 0, true))
  }

  // Four steps of a failing execution count the failure and touch nothing else that matters.
  lemma FailureIsCounted(config: Config, schedule: seq<Event>, k: nat, w: nat)
    requires k + 4 <= |schedule| && forall i :: k <= i < k + 4 ==> schedule[i] == Step(w, 0, 0, true)
    requires var s := At(config, schedule, k);
      w < |s.phases| && s.phases[w].Running? && !s.callerCanceled
    ensures var s, t := At(config, schedule, k), At(config, schedule, k + 4);
      && t.phases == s.phases[w := AddingRows(Execution(s.phases[w].issue, 0, true))]
      && t.totalFailures == s.totalFailures + 1
      && t.once == s.once && t.stopped == s.stopped && t.callerCanceled == s.callerCanceled
  {
    hide Workers.Add;
    var s := At(config, schedule, k);
    var done := Execution(s.phases[w].issue, 0, true);
    var s1 := At(config, schedule, k + 1);
    assert s1 == s.(log := s.log + [done], phases := s.phases[w := Errored(done)]);
    var s2 := At(config, schedule, k + 2);
    assert s2 == s1.(phases := s.phases[w := CountingFailure(done)]);
    var s3 := At(config, schedule, k + 3);
    assert s3.phases == s.phases[w := CountingTotal(done)];
  }

  // Afterwards three more steps report the failure and stop scheduling.
  lemma FailureStops(config: Config, schedule: seq<Event>, k: nat, w: nat)
    requires !config.ignoreErrors
    requires k + 3 <= |schedule| && forall i :: k <= i < k + 3 ==> schedule[i] == Step(w, 0, 0, true)
    requires var s := At(config, schedule, k);
      w < |s.phases| && s.phases[w].AddingRows? && s.phases[w].done.failed && s.once == Unused
    ensures var s, t := At(config, schedule, k), At(config, schedule, k + 3);
      && t.phases == s.phases[w := Returned] && t.stopped && t.totalFailures == s.totalFailures
      && t.callerCanceled == s.callerCanceled
  {
    hide Workers.Add;
    var s := At(config, schedule, k);
    var s1 := At(config, schedule, k + 1);
    assert s1.phases == s.phases[w := Reporting(s.phases[w].done.issue)] && s1.once == Unused;
    var s2 := At(config, schedule, k + 2);
    assert s2.phases == s.phases[w := Stopping(s.phases[w].done.issue)];
  }

  // The first four events, after which two workers are running.
  lemma TwoWorkersRun(config: Config)
    requires config.statements > 0 && config.workers >= 2
    requires config.runsPerStatement == 0 || config.statements * config.runsPerStatement >= 2
    ensures var s := At(config, LateFailure(), 4);
      && |s.phases| == config.workers && s.phases[0].Running? && s.phases[1].Running?
      && !s.callerCanceled && !s.stopped && s.once == Unused && s.totalFailures == 0
  {
    var schedule := LateFailure();
    var s2 := At(config, schedule, 2);
    assert At(config, schedule, 1) == Init(config).(phases := Init(config).phases[0 := Asking]);
    assert s2 == Init(config).(phases := Init(config).phases[0 := Asking][1 := Asking]);
    S.FreshIsValid(config.statements, config.runsPerStatement);
    S.RemainingAtStart(config.statements, config.runsPerStatement);
    assert S.CanIssue(s2.sched, 0);
    var first := S.AfterIssue(s2.sched, 0);
    S.IssueUsesOneRun(s2.sched, 0);
    S.IssueKeepsValid(s2.sched, 0);
    assert first.available != [] && S.CanIssue(first, 0) by {
      if config.runsPerStatement > 0 {
        S.RemainingMeansAvailable(first);
      } else {
        assert 0 in first.available;
      }
    }
    hide S.AfterIssue;
    hide S.CanIssue;
    hide S.Valid;
    var s3 := At(config, schedule, 3);
    assert s3 == s2.(sched := first, phases := s2.phases[0 := Running(S.Issued(s2.sched, 0))]);
  }

  // With a run limit, no more failures are counted than there are runs.
  lemma FailuresAreRuns(config: Config, s: State)
    requires Inv(config, s) && config.statements == 1 && config.runsPerStatement > 0
    ensures s.totalFailures <= config.runsPerStatement
  {
    assert Accounts(config, s, 0);
    SumNonNegative(s.phases, InFlight(0));
    SumNonNegative(s.phases, UncountedTotal());
    assert s.tallies == [s.tallies[0]];
    assert Sum(s.tallies, FailedOf()) == s.tallies[0].failed;
  }

  lemma TwoFailuresNeedTwoRuns(config: Config, schedule: seq<Event>, j: nat)
    requires Accepted(config) && !config.ignoreErrors && CountsAfterStop(config, schedule, j)
    ensures config.workers >= 2
    ensures config.runsPerStatement == 0 || config.statements * config.runsPerStatement >= 2
  {
    var t := At(config, schedule, |schedule|);
    AlwaysInv(config, schedule, j);
    AlwaysInv(config, schedule, |schedule|);
    SumBetween(t.phases, PastTotal(), 0, 1);
    assert t.totalFailures >= 2;
    if config.runsPerStatement > 0 && config.statements == 1 {
      FailuresAreRuns(config, t);
    } else if config.runsPerStatement > 0 {
      assert config.statements * config.runsPerStatement >= config.statements;
    }
  }

  /** When errors are not ignored, a first failure does not keep later ones from being counted:
      some run counts one after the stop exactly when two workers can each have a run. */
  lemma {:induction false} LaterFailuresAreCountedIff(config: Config)
    requires Accepted(config) && !config.ignoreErrors
    ensures (exists schedule: seq<Event>, j: nat :: CountsAfterStop(config, schedule, j))
       <==> config.workers >= 2 && (config.runsPerStatement == 0 || config.statements * config.runsPerStatement >= 2)
  {
    if config.workers >= 2 && (config.runsPerStatement == 0 || config.statements * config.runsPerStatement >= 2) {
      var schedule := LateFailure();
      TwoWorkersRun(config);
      hide Apply;
      hide Inv;
      FailureIsCounted(config, schedule, 4, 0);
      FailureStops(config, schedule, 8, 0);
      FailureIsCounted(config, schedule, 11, 1);
      assert CountsAfterStop(config, schedule, 11);
    }
    forall schedule: seq<Event>, j: nat | CountsAfterStop(config, schedule, j)
      ensures config.workers >= 2 && (config.runsPerStatement == 0 || config.statements * config.runsPerStatement >= 2)
    {
      TwoFailuresNeedTwoRuns(config, schedule, j);
    }
  }

  /** When errors are ignored, no error ever stops scheduling; without a time limit or
      caller cancellation every statement is attempted exactly its limit. */
  lemma IgnoringErrorPolicy(config: Config, schedule: seq<Event>, item: nat)
    requires Accepted(config) && config.ignoreErrors && item < config.statements
    ensures var s := At(config, schedule, |schedule|);
      && !s.stopped && s.firstFailure.None? && |s.sched.counts| == config.statements
      && (AllReturned(s) && !s.callerCanceled && !config.timed ==> s.sched.counts[item] == config.runsPerStatement)
  {
    var s := At(config, schedule, |schedule|);
    AlwaysInv(config, schedule, |schedule|);
    if AllReturned(s) && !s.callerCanceled && !config.timed {
      assert PhaseFits(s, 0);
      S.RemainingMeansAvailable(s.sched);
    }
  }

  // ---------- Progress of one step ----------

  ghost function Weight(): Phase -> int {
    (p: Phase) =>
      match p
      case Checking => 2
      case Asking => 1
      case Running(_) => 9
      case Errored(_) => 8
      case CountingFailure(_) => 7
      case CountingTotal(_) => 6
      case CountingSuccess(_) => 6
      case AddingRows(_) => 5
      case Reporting(_) => 4
      case Stopping(_) => 3
      case Returned => 0
  }

  ghost function View(): Workers.View<State, Phase> {
    Workers.View((s: State) => s.sched, (s: State) => s.phases, (s: State) => SchedulingOver(s),
                 (p: Phase) => p.Asking?, Weight(), 9)
  }

  lemma MoveKind(config: Config, s: State, w: nat, choice: nat, rows: int, failed: bool)
    requires Ready(s, w, choice)
    ensures var p, (t, q) := s.phases[w], Move(config, s, w, choice, rows, failed);
      && t.phases == s.phases && (SchedulingOver(s) ==> SchedulingOver(t))
      && if p.Asking? && s.sched.available != []
         then S.CanIssue(s.sched, choice) && t.sched == S.AfterIssue(s.sched, choice) && q.Running?
         else t.sched == s.sched && Weight()(q) < Weight()(p) && (SchedulingOver(s) ==> !q.Asking?)
  {
    match s.phases[w]
    case Running(_) =>
    case _ =>
  }

  predicate WorkerSteps(config: Config, s: State, e: Event) {
    e.Step? && Enabled(config, s, e)
  }

  ghost function Steps(config: Config): (State, Event) -> bool {
    (s, e) => WorkerSteps(config, s, e)
  }

  lemma ApplyFollows(config: Config, s: State, e: Event)
    ensures Workers.Follows(View(), s, Apply(config, s, e), WorkerSteps(config, s, e))
  {
    hide Move;
    if WorkerSteps(config, s, e) {
      MoveKind(config, s, e.worker, e.choice, e.rows, e.failed);
      assert Workers.Moves(View(), s, Apply(config, s, e), e.worker, e.choice);
    }
  }

  lemma AlwaysFollows(config: Config)
    ensures forall s, e :: Workers.Follows(View(), s, Next(config)(s, e), Steps(config)(s, e))
  {
    hide Workers.Follows;
    hide Apply;
    forall s, e ensures Workers.Follows(View(), s, Next(config)(s, e), Steps(config)(s, e)) {
      ApplyFollows(config, s, e);
    }
  }

  // ---------- Bounded overrun ----------

  lemma EndedMeansOver(config: Config, schedule: seq<Event>, k: nat)
    requires k <= |schedule|
    ensures Ended(config, schedule, k) <==> SchedulingOver(At(config, schedule, k))
  {
    FlagsAreEvents(config, schedule, k);
  }

  // Workers that have passed the check and will ask for a run.
  ghost function PastTheCheck(s: State): int {
    Sum(s.phases, Workers.AskingOne(View()))
  }

  /** Once scheduling has ended, for whatever reason, only the workers that are past the check
      schedule one more run each; a failure leaves at most workers - 1 of them. */
  lemma BoundedOverrun(config: Config, schedule: seq<Event>, j: nat, k: nat)
    requires j <= k <= |schedule| && Ended(config, schedule, j)
    ensures S.Scheduled(At(config, schedule, k).sched) - S.Scheduled(At(config, schedule, j).sched)
         <= PastTheCheck(At(config, schedule, j))
    ensures PastTheCheck(At(config, schedule, j))
         <= if At(config, schedule, j).stopped then config.workers - 1 else config.workers
  {
    var s := At(config, schedule, j);
    AlwaysInv(config, schedule, j);
    EndedMeansOver(config, schedule, j);
    AlwaysFollows(config);
    Workers.BoundedOverrun(View(), Init(config), Next(config), Steps(config), schedule, j, k);
    SumBetween(s.phases, Workers.AskingOne(View()), 0, 1);
    if s.stopped {
      Workers.AllButOneAsk(View(), s.phases, s.firstFailure.value.worker);
    }
  }

  // ---------- Termination under a run limit ----------

  /** Worker steps taken in the first k events. */
  ghost function StepsTaken(config: Config, schedule: seq<Event>, k: nat): nat
    requires k <= |schedule|
  {
    Traces.Taken(Init(config), Next(config), Steps(config), schedule, k)
  }

  ghost function Budget(config: Config): int {
    9 * (config.statements * config.runsPerStatement) + 2 * config.workers
  }

  lemma WorkAtStart(config: Config)
    ensures Workers.Work(View())(Init(config)) == Budget(config)
  {
    S.RemainingAtStart(config.statements, config.runsPerStatement);
    SumBetween(Init(config).phases, Weight(), 2, 2);
  }

  /** With a run limit, executions that return, and any interleaving, the workers take no
      more steps in all than this budget. */
  lemma StepsAreBounded(config: Config, schedule: seq<Event>, k: nat)
    requires k <= |schedule| && config.runsPerStatement > 0
    ensures 0 <= Workers.Work(View())(At(config, schedule, k)) <= Budget(config) - StepsTaken(config, schedule, k)
  {
    hide Workers.Work;
    hide Apply;
    AlwaysInv(config, schedule, k);
    Workers.WorkIsNonNegative(View(), At(config, schedule, k));
    hide Inv;
    WorkAtStart(config);
    AlwaysFollows(config);
    Workers.WorkIsUsed(View(), Init(config), Next(config), Steps(config), schedule, k);
  }

  /** No deadlock: until all workers have returned, some worker can take a step. */
  lemma SomeWorkerCanStep(config: Config, schedule: seq<Event>, k: nat)
    requires k <= |schedule| && !AllReturned(At(config, schedule, k))
    ensures exists e: Event :: e.Step? && Enabled(config, At(config, schedule, k), e)
  {
    AlwaysInv(config, schedule, k);
    StepWithoutError(config, At(config, schedule, k));
  }

  predicate Quiet(e: Event) {
    e.Step? && !e.failed
  }

  lemma StepWithoutError(config: Config, s: State)
    requires Inv(config, s) && !AllReturned(s)
    ensures exists e :: Quiet(e) && Enabled(config, s, e)
  {
    var w :| 0 <= w < |s.phases| && s.phases[w] != Returned;
    if s.phases[w].Reporting? && s.once == InUse {
      assert Quiet(Step(s.firstFailure.value.worker, 0, 0, false)) && Enabled(config, s, Step(s.firstFailure.value.worker, 0, 0, false));
    } else {
      assert s.sched.available != [] ==> s.sched.available[0] in s.sched.available;
      assert Quiet(Step(w, 0, 0, false)) && Enabled(config, s, Step(w, 0, 0, false));
    }
  }

  lemma RestIsBounded(s: State)
    ensures 0 <= Workers.Rest(View())(s) <= 10 * |s.phases|
  {
    SumBetween(s.phases, Workers.RestOf(View()), 0, 10);
  }

  /** Once scheduling has ended, the workers take no more than ten further steps each, run
      limit or not. */
  lemma WindsDown(config: Config, schedule: seq<Event>, j: nat, k: nat)
    requires j <= k <= |schedule| && Ended(config, schedule, j)
    ensures StepsTaken(config, schedule, k) - StepsTaken(config, schedule, j) <= 10 * config.workers
  {
    AlwaysInv(config, schedule, j);
    EndedMeansOver(config, schedule, j);
    AlwaysFollows(config);
    Workers.RestIsUsed(View(), Init(config), Next(config), Steps(config), schedule, j, k);
    RestIsBounded(At(config, schedule, j));
    RestIsBounded(At(config, schedule, k));
    hide Workers.Rest;
    hide Apply;
    hide Ended;
    hide Shape;
  }

  /** From every reachable state with a run limit, and from every state in which scheduling has
      ended, all workers can return without a further error. */
  lemma CanFinish(config: Config, schedule: seq<Event>) returns (finish: seq<Event>)
    requires config.runsPerStatement > 0 || Ended(config, schedule, |schedule|)
    ensures forall e :: e in finish ==> Quiet(e)
    ensures AllReturned(At(config, schedule + finish, |schedule + finish|))
  {
    AlwaysInv(config, schedule, |schedule|);
    EndedMeansOver(config, schedule, |schedule|);
    AlwaysFollows(config);
    hide Apply;
    hide Ended;
    hide Workers.Follows;
    forall s | Inv(config, s) ensures Workers.Sound(View(), s) {
      InvIsSound(config, s);
    }
    hide Workers.Sound;
    forall s, e | Inv(config, s) ensures Inv(config, Next(config)(s, e)) {
      ApplyInv(config, s, e);
    }
    forall s | Inv(config, s) && !AllReturned(s) ensures exists e :: Quiet(e) && Steps(config)(s, e) {
      StepWithoutError(config, s);
      var e :| Quiet(e) && Enabled(config, s, e);
      assert Steps(config)(s, e);
    }
    assert Workers.WillEnd(View(), At(config, schedule, |schedule|));
    hide Inv;
    hide Enabled;
    hide AllReturned;
    finish := Workers.CanFinish(View(), Init(config), Next(config), Steps(config), s => Inv(config, s), s => AllReturned(s),
                                e => Quiet(e), schedule);
  }

  lemma InvIsSound(config: Config, s: State)
    requires Inv(config, s)
    ensures Workers.Sound(View(), s)
  {
    hide S.Valid;
  }

  // The pool ends by itself after at least one run, without error or cancellation.
  ghost predicate EndsWell(config: Config, schedule: seq<Event>) {
    && (forall e :: e in schedule ==> Quiet(e) || e.Expire?)
    && AllReturned(At(config, schedule, |schedule|)) && S.Scheduled(At(config, schedule, |schedule|).sched) > 0
  }

  lemma NoWorkersNoRuns(config: Config, schedule: seq<Event>)
    requires config.workers == 0
    ensures S.Scheduled(At(config, schedule, |schedule|).sched) == 0
  {
    var idle := Init(config).sched;
    Traces.StaysTrue(Init(config), Next(config), (s: State) => s.phases == [] && s.sched == idle, schedule, 0, |schedule|);
    SumBetween(idle.counts, Itself(), 0, 0);
  }

  lemma EndingWellNeedsAcceptance(config: Config, schedule: seq<Event>)
    requires EndsWell(config, schedule)
    ensures Accepted(config)
  {
    hide Apply;
    hide Move;
    hide Flags;
    var s := At(config, schedule, |schedule|);
    AlwaysInv(config, schedule, |schedule|);
    assert schedule[..|schedule|] == schedule;
    if config.workers == 0 {
      NoWorkersNoRuns(config, schedule);
    } else {
      ReturnsForAReason(config, schedule, |schedule|, 0);
      if s.stopped {
        StopNeedsError(config, schedule);
      }
    }
  }

  lemma StopNeedsError(config: Config, schedule: seq<Event>)
    requires At(config, schedule, |schedule|).stopped
    ensures exists e :: e in schedule && e.Step? && e.failed
  {
    var s := At(config, schedule, |schedule|);
    AlwaysInv(config, schedule, |schedule|);
    CausesAlways(config, schedule, |schedule|);
    var rows :| Execution(s.firstFailure.value.issue, rows, true) in s.log;
    SomeFailure(s.log);
    LogCountsFailures(config, schedule, |schedule|);
    FailuresAreEvents(config, schedule, |schedule|);
  }

  lemma {:induction false} FailuresAreEvents(config: Config, schedule: seq<Event>, k: nat)
    requires k <= |schedule| && FailedExecutions(config, schedule, k) > 0
    ensures exists e :: e in schedule && e.Step? && e.failed
    decreases k
  {
    if k == 0 {
    } else if Fails(config, At(config, schedule, k - 1), schedule[k - 1]) {
      assert schedule[k - 1] in schedule;
    } else {
      FailuresAreEvents(config, schedule, k - 1);
    }
  }

  // Worker 0 takes a run, and then the duration ends if there is one.
  function FirstRun(config: Config): seq<Event> {
    [Step(0, 0, 0, false), Step(0, 0, 0, false)] + if config.timed then [Expire] else []
  }

  lemma FirstRunIsTaken(config: Config)
    requires Accepted(config)
    ensures var schedule := FirstRun(config);
      && (forall e :: e in schedule ==> Quiet(e) || e.Expire?)
      && S.Scheduled(At(config, schedule, |schedule|).sched) == 1
      && (config.runsPerStatement > 0 || Ended(config, schedule, |schedule|))
  {
    var schedule := FirstRun(config);
    var s := At(config, schedule, 1);
    assert s == Init(config).(phases := Init(config).phases[0 := Asking]);
    S.IssueSchedulesOneRun(s.sched, 0);
    SumBetween(s.sched.counts, Itself(), 0, 0);
    assert At(config, schedule, 2).sched == S.AfterIssue(s.sched, 0);
    if config.timed {
      assert Expire == schedule[2] && Expire in schedule[..3];
    }
  }

  lemma EndWell(config: Config) returns (schedule: seq<Event>)
    requires Accepted(config)
    ensures EndsWell(config, schedule)
  {
    hide Apply;
    hide Move;
    hide Workers.Follows;
    hide FirstRun;
    hide Ended;
    hide Shape;
    var first := FirstRun(config);
    FirstRunIsTaken(config);
    var finish := CanFinish(config, first);
    schedule := first + finish;
    Traces.Prefix(Init(config), Next(config), first, finish, |first|);
    AlwaysFollows(config);
    Workers.ScheduledNeverFalls(View(), Init(config), Next(config), Steps(config), schedule, |first|, |schedule|);
  }

  /** The configurations that are let through are exactly those under which the pool can do
      something and then end by itself. */
  lemma AcceptedIff(config: Config)
    ensures Accepted(config) <==> exists schedule :: EndsWell(config, schedule)
  {
    if Accepted(config) {
      var schedule := EndWell(config);
    }
    if schedule :| EndsWell(config, schedule) {
      EndingWellNeedsAcceptance(config, schedule);
    }
  }
}
