// The concurrent insert run of runInsertValues in dbHelper/insert_values.go: the runner
// (dbHelper/runner.go) starts every task at once, tasks share runErr under a mutex and
// the first error cancels the context of the others. A schedule is any list of events;
// an event that is not enabled leaves the state alone.
module InsertPool {
  import opened Basics
  import Traces
  import opened InsertValues

  type Positive = n: nat | n > 0 witness 1

  // The settings that validateInsertSettings lets through.
  datatype Config = Config(totalRowCnt: Positive, taskCount: Positive, batchSize: Positive)

  datatype Phase =
    | Entering                                // runErrMu held: has an error been recorded?
    | Looping(inserted: nat)                  // loop test and ctx.Err() before a statement
    | Executing(inserted: nat, rowCount: nat) // inside db.ExecContext
    | Diagnosing                              // the statement failed; about to test ctx.Err()
    | Failing(error: TaskError)               // about to take runErrMu with an error
    | Canceling                               // runErr is set, about to call cancel under runErrMu
    | Returned

  datatype RunError = RunError(taskID: nat, error: TaskError)

  // statements records the row counts of the statements each task has executed.
  datatype State = State(
    phases: seq<Phase>,
    runErr: Option<RunError>,
    locked: bool,
    canceled: bool,
    statements: seq<seq<nat>>)

  datatype Event = Step(taskID: nat, fails: bool)

  function Size(config: Config, taskID: nat): nat {
    TaskSize(config.totalRowCnt, config.taskCount, taskID)
  }

  function Init(config: Config): State {
    State(seq(config.taskCount, _ => Entering), None, false, false, seq(config.taskCount, _ => []))
  }

  predicate Enabled(s: State, e: Event) {
    e.taskID < |s.phases| == |s.statements| &&
    match s.phases[e.taskID]
    case Entering => !s.locked
    case Failing(_) => !s.locked
    case Returned => false
    case _ => true
  }

  function Apply(config: Config, s: State, e: Event): State {
    if !Enabled(s, e) then s else
    var w := e.taskID;
    match s.phases[w]
    case Entering => s.(phases := s.phases[w := if s.runErr.Some? then Returned else Looping(0)])
    case Looping(inserted) =>
      var next :=
        if inserted >= Size(config, w) then Returned
        else if s.canceled then Failing(TaskCanceled)
        else Executing(inserted, Min(config.batchSize, Size(config, w) - inserted));
      s.(phases := s.phases[w := next])
    case Executing(inserted, rowCount) =>
      if e.fails then s.(phases := s.phases[w := Diagnosing])
      else s.(statements := s.statements[w := s.statements[w] + [rowCount]],
              phases := s.phases[w := Looping(inserted + rowCount)])
    case Diagnosing => s.(phases := s.phases[w := Failing(if s.canceled then TaskCanceled else InsertFailed)])
    case Failing(error) =>
      if s.runErr.None? then s.(runErr := Some(RunError(w, error)), locked := true, phases := s.phases[w := Canceling])
      else s.(phases := s.phases[w := Returned])
    case Canceling => s.(canceled := true, locked := false, phases := s.phases[w := Returned])
  }

  function Next(config: Config): (State, Event) -> State {
    (s, e) => Apply(config, s, e)
  }

  /** The state after the first k events of a schedule. */
  function At(config: Config, schedule: seq<Event>, k: nat): State
    requires k <= |schedule|
  {
    Traces.At(Init(config), Next(config), schedule, k)
  }

  predicate AllReturned(s: State) {
    forall w :: 0 <= w < |s.phases| ==> s.phases[w] == Returned
  }

  datatype Outcome = RunFailed(error: RunError) | CloseFailed | Inserted

  /** What runInsertValues returns once every task has. */
  function Result(s: State, closeFails: bool): Outcome {
    if s.runErr.Some? then RunFailed(s.runErr.value) else if closeFails then CloseFailed else Inserted
  }

  // ---------- The inductive invariant ----------

  ghost predicate TaskFits(config: Config, s: State, w: nat)
    requires w < |s.phases| == |s.statements|
  {
    var all, done, size := Batches(Size(config, w), config.batchSize), s.statements[w], Size(config, w);
    match s.phases[w]
    case Entering => done == []
    case Looping(inserted) => inserted <= size && done + Batches(size - inserted, config.batchSize) == all
    case Executing(inserted, rowCount) =>
      inserted < size && rowCount == Min(config.batchSize, size - inserted)
      && done + Batches(size - inserted, config.batchSize) == all
    case Diagnosing => done <= all
    case Failing(error) => done <= all && error != NoDatabase && (error == TaskCanceled ==> s.canceled)
    case Canceling => done <= all && s.locked && s.runErr.Some? && s.runErr.value.taskID == w
    case Returned => done <= all && (s.runErr.None? ==> done == all)
  }

  ghost predicate Inv(config: Config, s: State)
  {
    && |s.phases| == |s.statements| == config.taskCount
    && (s.canceled ==> s.runErr.Some?)
    && (s.runErr.Some? ==> s.runErr.value.error == InsertFailed && s.runErr.value.taskID < config.taskCount)
    && (s.locked ==> s.runErr.Some? && s.phases[s.runErr.value.taskID] == Canceling)
    && (s.runErr.Some? && !s.locked ==> s.canceled && s.phases[s.runErr.value.taskID] == Returned)
    && forall w :: 0 <= w < config.taskCount ==> TaskFits(config, s, w)
  }

  lemma OwnTaskFits(config: Config, s: State, e: Event)
    requires Inv(config, s) && Enabled(s, e)
    ensures var t := Apply(config, s, e);
      |t.phases| == |t.statements| == config.taskCount && TaskFits(config, t, e.taskID)
  {
    assert TaskFits(config, s, e.taskID);
    match s.phases[e.taskID]
    case Executing(inserted, rowCount) =>
      NextBatch(s.statements[e.taskID], Size(config, e.taskID) - inserted, config.batchSize);
    case Looping(inserted) =>
      assert s.statements[e.taskID] + [] == s.statements[e.taskID];
    case _ =>
  }

  lemma OtherTaskFits(config: Config, s: State, e: Event, w: nat)
    requires Inv(config, s) && Enabled(s, e) && w < config.taskCount && w != e.taskID
    ensures var t := Apply(config, s, e);
      |t.phases| == |t.statements| == config.taskCount && TaskFits(config, t, w)
  {
    assert TaskFits(config, s, w) && TaskFits(config, s, e.taskID);
    var t := Apply(config, s, e);
    assert t.phases[w] == s.phases[w] && t.statements[w] == s.statements[w];
    hide Batches;
  }

  lemma ApplyInv(config: Config, s: State, e: Event)
    requires Inv(config, s)
    ensures Inv(config, Apply(config, s, e))
  {
    if Enabled(s, e) {
      hide Batches;
      assert TaskFits(config, s, e.taskID);
      OwnTaskFits(config, s, e);
      forall w | 0 <= w < config.taskCount ensures TaskFits(config, Apply(config, s, e), w) {
        if w != e.taskID {
          OtherTaskFits(config, s, e, w);
        }
      }
    }
  }

  /** The invariant holds in every reachable state. */
  lemma AlwaysInv(config: Config, schedule: seq<Event>, k: nat)
    requires k <= |schedule|
    ensures Inv(config, At(config, schedule, k))
  {
    forall s, e | Inv(config, s) ensures Inv(config, Next(config)(s, e)) {
      ApplyInv(config, s, e);
    }
    Traces.StaysTrue(Init(config), Next(config), s => Inv(config, s), schedule, 0, k);
  }

  /** The model leaves out no run: every unfinished task can take its next step, a statement
      succeeding or failing, and waits only for the task that records its error. */
  lemma NothingIsExcluded(config: Config, schedule: seq<Event>, w: nat, fails: bool)
    requires w < config.taskCount
    ensures var s := At(config, schedule, |schedule|);
      && |s.phases| == config.taskCount
      && match s.phases[w]
         case Entering | Failing(_) =>
           Enabled(s, Step(w, fails)) <==> forall v :: 0 <= v < config.taskCount ==> s.phases[v] != Canceling
         case Returned => !Enabled(s, Step(w, fails))
         case _ => Enabled(s, Step(w, fails))
  {
    var s := At(config, schedule, |schedule|);
    AlwaysInv(config, schedule, |schedule|);
    assert s.locked ==> s.phases[s.runErr.value.taskID] == Canceling;
    forall v | 0 <= v < config.taskCount ensures s.phases[v] == Canceling ==> s.locked {
      assert TaskFits(config, s, v);
    }
  }

  // ---------- What an insert run means ----------

  /** In every reachable state: a cancelled context implies that an error is already recorded,
      and the recorded error is the failure of a statement, never a "canceled" error. */
  lemma RecordedErrorIsRootCause(config: Config, schedule: seq<Event>, k: nat)
    requires k <= |schedule|
    ensures var s := At(config, schedule, k);
      && (s.canceled ==> s.runErr.Some?)
      && (s.runErr.Some? ==> s.runErr.value.error == InsertFailed)
  {
    AlwaysInv(config, schedule, k);
  }

  ghost function StatementRows(): seq<nat> -> int {
    (statements: seq<nat>) => RowTotal(statements)
  }

  ghost function ExecutedRows(s: State): int {
    Sum(s.statements, StatementRows())
  }

  // Pointwise bounds on the rows of each task bound the rows of all tasks.
  lemma {:induction false} TasksBound(statements: seq<seq<nat>>, sizes: seq<nat>)
    requires |statements| == |sizes|
    requires forall w :: 0 <= w < |sizes| ==> RowTotal(statements[w]) <= sizes[w]
    ensures Sum(statements, StatementRows()) <= Sum(sizes, Itself())
    ensures (forall w :: 0 <= w < |sizes| ==> RowTotal(statements[w]) == sizes[w]) ==>
      Sum(statements, StatementRows()) == Sum(sizes, Itself())
  {
    if sizes == [] {
    } else {
      TasksBound(statements[1..], sizes[1..]);
    }
  }

  lemma PrefixRows(done: seq<nat>, all: seq<nat>)
    requires done <= all
    ensures RowTotal(done) <= RowTotal(all)
  {
    assert all == done + all[|done|..];
    SumAppend(done, all[|done|..], Itself());
    SumNonNegative(all[|done|..], Itself());
  }

  /** In every interleaving no more rows than configured are executed, and a finished run
      with no recorded error has executed exactly the configured number across all tasks. */
  lemma {:induction false} NoErrorMeansAllRows(config: Config, schedule: seq<Event>, closeFails: bool)
    ensures var s := At(config, schedule, |schedule|);
      && ExecutedRows(s) <= config.totalRowCnt
      && (AllReturned(s) && !Result(s, closeFails).RunFailed? ==> ExecutedRows(s) == config.totalRowCnt)
  {
    var s := At(config, schedule, |schedule|);
    AlwaysInv(config, schedule, |schedule|);
    var sizes := TaskSizes(config.totalRowCnt, config.taskCount);
    forall w | 0 <= w < |sizes|
      ensures RowTotal(s.statements[w]) <= sizes[w]
      ensures AllReturned(s) && s.runErr.None? ==> RowTotal(s.statements[w]) == sizes[w]
    {
      assert TaskFits(config, s, w);
      BatchesAreFullButLast(sizes[w], config.batchSize);
      PrefixRows(s.statements[w], Batches(sizes[w], config.batchSize));
    }
    TasksBound(s.statements, sizes);
    TaskSizesPartitionRows(config.totalRowCnt, config.taskCount);
  }

  /** Event j is a statement that fails. */
  ghost predicate StatementFails(config: Config, schedule: seq<Event>, j: nat) {
    && j < |schedule| && schedule[j].fails
    && Enabled(At(config, schedule, j), schedule[j])
    && At(config, schedule, j).phases[schedule[j].taskID].Executing?
  }

  // Some statement has failed and that is not forgotten.
  ghost predicate Tainted(s: State) {
    s.runErr.Some? || exists w :: 0 <= w < |s.phases| && (s.phases[w].Diagnosing? || s.phases[w].Failing?)
  }

  lemma TaintStays(config: Config, s: State, e: Event)
    requires Tainted(s)
    ensures Tainted(Apply(config, s, e))
  {
    var t := Apply(config, s, e);
    if s.runErr.None? && t.runErr.None? && t != s {
      var w :| 0 <= w < |s.phases| && (s.phases[w].Diagnosing? || s.phases[w].Failing?);
      assert t.phases[w].Diagnosing? || t.phases[w].Failing?;
    }
  }

  /** A failed statement is never lost: the run then ends with a recorded error. */
  lemma AnyFailureIsReported(config: Config, schedule: seq<Event>, j: nat)
    requires StatementFails(config, schedule, j)
    requires AllReturned(At(config, schedule, |schedule|))
    ensures Result(At(config, schedule, |schedule|), false).RunFailed?
  {
    assert At(config, schedule, j + 1).phases[schedule[j].taskID] == Diagnosing;
    forall s, e | Tainted(s) ensures Tainted(Next(config)(s, e)) {
      TaintStays(config, s, e);
    }
    Traces.StaysTrue(Init(config), Next(config), s => Tainted(s), schedule, j + 1, |schedule|);
  }

  // Event j is a failing statement of task w.
  ghost predicate FailsFor(config: Config, schedule: seq<Event>, j: nat, w: nat) {
    StatementFails(config, schedule, j) && schedule[j].taskID == w
  }

  lemma {:induction false} FailingTasksFailed(config: Config, schedule: seq<Event>, k: nat, w: nat)
    requires k <= |schedule| && w < |At(config, schedule, k).phases|
    requires var p := At(config, schedule, k).phases[w]; p.Diagnosing? || p == Failing(InsertFailed)
    ensures exists j: nat :: j < k && FailsFor(config, schedule, j, w)
    decreases k
  {
    if k == 0 {
    } else {
      var p := At(config, schedule, k - 1).phases[w];
      if p.Diagnosing? || p == Failing(InsertFailed) {
        FailingTasksFailed(config, schedule, k - 1, w);
      } else {
        assert FailsFor(config, schedule, k - 1, w);
      }
    }
  }

  // Event j is the test for cancellation after a failed statement of task w, and finds none.
  ghost predicate TestPasses(config: Config, schedule: seq<Event>, j: nat, w: nat) {
    && j < |schedule| && schedule[j].taskID == w
    && var s := At(config, schedule, j);
       w < |s.phases| && s.phases[w].Diagnosing? && !s.canceled
  }

  /** A task ends with the error of its statement only if its context was not cancelled when it
      looked, and with a "canceled" error only if it has been. */
  lemma {:induction false} TaskErrorsAreTold(config: Config, schedule: seq<Event>, k: nat, w: nat)
    requires k <= |schedule| && w < |At(config, schedule, k).phases| && At(config, schedule, k).phases[w].Failing?
    ensures match At(config, schedule, k).phases[w].error
      case NoDatabase => false
      case TaskCanceled => At(config, schedule, k).canceled
      case InsertFailed => exists j: nat :: j < k && TestPasses(config, schedule, j, w)
    decreases k
  {
    AlwaysInv(config, schedule, k);
    assert TaskFits(config, At(config, schedule, k), w);
    if k == 0 {
    } else if At(config, schedule, k - 1).phases[w] == At(config, schedule, k).phases[w] {
      TaskErrorsAreTold(config, schedule, k - 1, w);
    } else if At(config, schedule, k).phases[w].error == InsertFailed {
      assert TestPasses(config, schedule, k - 1, w);
    }
  }

  /** A task that has not begun when an error is recorded never does more than return. */
  lemma LateTasksReturn(config: Config, schedule: seq<Event>, j: nat, k: nat, w: nat)
    requires j <= k <= |schedule| && w < config.taskCount
    requires var s := At(config, schedule, j); s.runErr.Some? && w < |s.phases| && s.phases[w] == Entering
    ensures var s := At(config, schedule, k); w < |s.phases| && (s.phases[w] == Entering || s.phases[w] == Returned)
  {
    Traces.StaysTrue(Init(config), Next(config),
                     (s: State) => s.runErr.Some? && w < |s.phases| && (s.phases[w] == Entering || s.phases[w] == Returned),
                     schedule, j, k);
  }

  /** The recorded error is that of a task of which a statement did fail. */
  lemma {:induction false} RecordedErrorDidFail(config: Config, schedule: seq<Event>, k: nat)
    requires k <= |schedule| && At(config, schedule, k).runErr.Some?
    ensures exists j: nat :: j < k && FailsFor(config, schedule, j, At(config, schedule, k).runErr.value.taskID)
    decreases k
  {
    AlwaysInv(config, schedule, k);
    if k == 0 {
    } else if At(config, schedule, k - 1).runErr == At(config, schedule, k).runErr {
      RecordedErrorDidFail(config, schedule, k - 1);
    } else {
      FailingTasksFailed(config, schedule, k - 1, schedule[k - 1].taskID);
    }
  }

  /** Once recorded, the error is never replaced. */
  lemma FirstErrorIsRecordedOnce(config: Config, schedule: seq<Event>, j: nat, k: nat)
    requires j <= k <= |schedule| && At(config, schedule, j).runErr.Some?
    ensures At(config, schedule, k).runErr == At(config, schedule, j).runErr
  {
    var error := At(config, schedule, j).runErr;
    Traces.StaysTrue(Init(config), Next(config), (s: State) => s.runErr == error, schedule, j, k);
  }

  /** The result of a finished run, exactly: an error if some statement failed, then an error if
      closing did, and otherwise success. */
  lemma ResultIsExact(config: Config, schedule: seq<Event>, closeFails: bool)
    requires AllReturned(At(config, schedule, |schedule|))
    ensures var result, failed := Result(At(config, schedule, |schedule|), closeFails), exists j: nat :: StatementFails(config, schedule, j);
      && (result.RunFailed? <==> failed)
      && (result.CloseFailed? <==> !failed && closeFails)
      && (result.Inserted? <==> !failed && !closeFails)
    ensures At(config, schedule, |schedule|).runErr.Some? ==>
      Result(At(config, schedule, |schedule|), closeFails) == RunFailed(At(config, schedule, |schedule|).runErr.value)
  {
    var s := At(config, schedule, |schedule|);
    if s.runErr.Some? {
      RecordedErrorDidFail(config, schedule, |schedule|);
      var j: nat :| j < |schedule| && FailsFor(config, schedule, j, s.runErr.value.taskID);
      assert StatementFails(config, schedule, j);
    }
    if j: nat :| StatementFails(config, schedule, j) {
      AnyFailureIsReported(config, schedule, j);
    }
  }

  // ---------- How concurrent a run is ----------

  ghost function ExecutingOne(): Phase -> int {
    (p: Phase) => if p.Executing? then 1 else 0
  }

  /** Statements that are being executed at this moment. */
  ghost function StatementsInFlight(s: State): int {
    Sum(s.phases, ExecutingOne())
  }

  ghost function StatementCount(): seq<nat> -> int {
    (statements: seq<nat>) => |statements|
  }

  /** Statements that have been executed so far, over all tasks. */
  ghost function StatementsDone(s: State): int {
    Sum(s.statements, StatementCount())
  }

  lemma StepStartsNothing(config: Config, s: State, e: Event)
    requires s.canceled
    ensures var t := Apply(config, s, e);
      t.canceled && StatementsDone(t) + StatementsInFlight(t) <= StatementsDone(s) + StatementsInFlight(s)
  {
    if Enabled(s, e) {
      var t, w := Apply(config, s, e), e.taskID;
      SumUpdate(s.phases, w, t.phases[w], ExecutingOne());
      SumUpdate(s.statements, w, t.statements[w], StatementCount());
      assert t.phases == s.phases[w := t.phases[w]] && t.statements == s.statements[w := t.statements[w]];
    }
  }

  /** Once an error has cancelled the context no task starts a statement any more: at most the
      statements in flight, one per other task, are still executed. */
  lemma BoundedOverrun(config: Config, schedule: seq<Event>, j: nat, k: nat)
    requires j <= k <= |schedule| && At(config, schedule, j).canceled
    ensures StatementsDone(At(config, schedule, k)) - StatementsDone(At(config, schedule, j))
         <= StatementsInFlight(At(config, schedule, j)) <= config.taskCount - 1
  {
    var s, t := At(config, schedule, j), At(config, schedule, k);
    AlwaysInv(config, schedule, j);
    var exposure := (s: State) => StatementsDone(s) + StatementsInFlight(s);
    forall s: State, e | s.canceled ensures Next(config)(s, e).canceled && exposure(Next(config)(s, e)) <= exposure(s) {
      StepStartsNothing(config, s, e);
    }
    Traces.NeverRises(Init(config), Next(config), (s: State) => s.canceled, exposure, schedule, j, k);
    SumNonNegative(t.phases, ExecutingOne());
    IdleTask(s.phases, s.runErr.value.taskID);
  }

  lemma {:induction false} IdleTask(phases: seq<Phase>, w: nat)
    requires w < |phases| && !phases[w].Executing?
    ensures Sum(phases, ExecutingOne()) <= |phases| - 1
  {
    if w == 0 {
      SumBetween(phases[1..], ExecutingOne(), 0, 1);
    } else {
      IdleTask(phases[1..], w - 1);
    }
  }

  // Each of the first n tasks enters and starts its first statement.
  function StartAll(n: nat): seq<Event> {
    seq(2 * n, i requires 0 <= i => Step(i / 2, false))
  }

  // The phases once the first i tasks execute their first statement.
  function Started(config: Config, i: nat): seq<Phase> {
    seq(config.taskCount, w requires 0 <= w =>
      if w < i then Executing(0, Min(config.batchSize, Size(config, w))) else Entering)
  }

  lemma {:induction false} Starts(config: Config, n: nat, i: nat)
    requires i <= n <= config.taskCount && n <= config.totalRowCnt
    ensures At(config, StartAll(n), 2 * i) == Init(config).(phases := Started(config, i))
    decreases i
  {
    if i == 0 {
      assert Started(config, 0) == Init(config).phases;
    } else {
      Starts(config, n, i - 1);
      FirstTasksHaveRows(config, n, i - 1);
      var s := At(config, StartAll(n), 2 * (i - 1));
      assert StartAll(n)[2 * i - 2] == StartAll(n)[2 * i - 1] == Step(i - 1, false);
      var s1 := At(config, StartAll(n), 2 * i - 1);
      assert s1 == s.(phases := s.phases[i - 1 := Looping(0)]);
      assert Started(config, i) == s1.phases[i - 1 := Executing(0, Min(config.batchSize, Size(config, i - 1)))];
    }
  }

  lemma FirstTasksHaveRows(config: Config, n: nat, w: nat)
    requires w < n <= config.totalRowCnt && n <= config.taskCount
    ensures Size(config, w) > 0
  {
    if config.totalRowCnt / config.taskCount == 0 {
      assert config.totalRowCnt % config.taskCount == config.totalRowCnt;
    }
  }

  lemma {:induction false} StartedSum(config: Config, n: nat, k: nat)
    requires n <= config.taskCount && k <= config.taskCount
    ensures Sum(Started(config, n)[..k], ExecutingOne()) == Min(n, k)
  {
    var phases := Started(config, n);
    if k == 0 {
    } else {
      StartedSum(config, n, k - 1);
      assert phases[..k] == phases[..k - 1] + [phases[k - 1]];
      SumAppend(phases[..k - 1], [phases[k - 1]], ExecutingOne());
    }
  }

  // Every executing task has rows of its own.
  lemma {:induction false} ExecutingTasksHaveRows(phases: seq<Phase>, sizes: seq<nat>)
    requires |phases| == |sizes|
    requires forall w :: 0 <= w < |phases| ==> phases[w].Executing? ==> sizes[w] > 0
    ensures Sum(phases, ExecutingOne()) <= Sum(sizes, Itself())
  {
    if phases == [] {
    } else {
      ExecutingTasksHaveRows(phases[1..], sizes[1..]);
    }
  }

  /** The runner is not single-threaded: n statements can be in flight at once exactly when
      there are n tasks and n rows. */
  lemma {:induction false} InFlightTogetherIff(config: Config, n: nat)
    ensures (exists schedule: seq<Event> :: StatementsInFlight(At(config, schedule, |schedule|)) == n)
       <==> n <= Min(config.taskCount, config.totalRowCnt)
  {
    if n <= Min(config.taskCount, config.totalRowCnt) {
      Starts(config, n, n);
      StartedSum(config, n, config.taskCount);
      assert Started(config, n)[..config.taskCount] == Started(config, n);
      assert StatementsInFlight(At(config, StartAll(n), |StartAll(n)|)) == n;
    }
    forall schedule: seq<Event> | StatementsInFlight(At(config, schedule, |schedule|)) == n
      ensures n <= Min(config.taskCount, config.totalRowCnt)
    {
      var s, sizes := At(config, schedule, |schedule|), TaskSizes(config.totalRowCnt, config.taskCount);
      AlwaysInv(config, schedule, |schedule|);
      forall w | 0 <= w < |sizes| && s.phases[w].Executing? ensures sizes[w] > 0 {
        assert TaskFits(config, s, w);
      }
      ExecutingTasksHaveRows(s.phases, sizes);
      TaskSizesPartitionRows(config.totalRowCnt, config.taskCount);
      SumBetween(s.phases, ExecutingOne(), 0, 1);
    }
  }

  // ---------- Termination ----------

  ghost function Weight(total: nat): Phase -> int {
    (p: Phase) =>
      match p
      case Entering => 2 * total + 6
      case Looping(inserted) => 2 * (total - inserted) + 5
      case Executing(inserted, _) => 2 * (total - inserted) + 4
      case Diagnosing => 3
      case Failing(_) => 2
      case Canceling => 1
      case Returned => 0
  }

  ghost function Work(config: Config, s: State): int {
    Sum(s.phases, Weight(config.totalRowCnt))
  }

  lemma StepUsesWork(config: Config, s: State, e: Event)
    requires Inv(config, s) && Enabled(s, e)
    ensures Work(config, Apply(config, s, e)) < Work(config, s)
  {
    var q := Apply(config, s, e).phases[e.taskID];
    assert TaskFits(config, s, e.taskID);
    assert Weight(config.totalRowCnt)(q) < Weight(config.totalRowCnt)(s.phases[e.taskID]) by {
      SizeIsAtMostTotal(config, e.taskID);
    }
    SumUpdate(s.phases, e.taskID, q, Weight(config.totalRowCnt));
    assert Apply(config, s, e).phases == s.phases[e.taskID := q];
  }

  lemma {:induction false} SizeIsAtMostTotal(config: Config, taskID: nat)
    requires taskID < config.taskCount
    ensures Size(config, taskID) <= config.totalRowCnt
  {
    var sizes := TaskSizes(config.totalRowCnt, config.taskCount);
    TaskSizesPartitionRows(config.totalRowCnt, config.taskCount);
    SumAtLeast(sizes, taskID, Itself());
  }

  /** Task steps taken in the first k events. */
  ghost function StepsTaken(config: Config, schedule: seq<Event>, k: nat): nat
    requires k <= |schedule|
  {
    Traces.Taken(Init(config), Next(config), (s, e) => Enabled(s, e), schedule, k)
  }

  lemma WorkIsNonNegative(config: Config, s: State)
    requires Inv(config, s)
    ensures Work(config, s) >= 0
  {
    forall p | p in s.phases ensures Weight(config.totalRowCnt)(p) >= 0 {
      var w :| 0 <= w < |s.phases| && s.phases[w] == p;
      assert TaskFits(config, s, w);
      SizeIsAtMostTotal(config, w);
    }
    SumNonNegative(s.phases, Weight(config.totalRowCnt));
  }

  /** In any interleaving, given that statements return, the tasks take boundedly many steps. */
  lemma StepsAreBounded(config: Config, schedule: seq<Event>, k: nat)
    requires k <= |schedule|
    ensures 0 <= Work(config, At(config, schedule, k))
              <= (2 * config.totalRowCnt + 6) * config.taskCount - StepsTaken(config, schedule, k)
  {
    AlwaysInv(config, schedule, k);
    WorkIsNonNegative(config, At(config, schedule, k));
    var n := 2 * config.totalRowCnt + 6;
    SumBetween(Init(config).phases, Weight(config.totalRowCnt), n, n);
    AlwaysInv(config, schedule, 0);
    hide Work;
    forall s, e | Inv(config, s)
      ensures Inv(config, Next(config)(s, e))
      ensures Work(config, Next(config)(s, e)) <= Work(config, s) - if Enabled(s, e) then 1 else 0
    {
      ApplyInv(config, s, e);
      if Enabled(s, e) {
        StepUsesWork(config, s, e);
      }
    }
    Traces.WorkIsUsed(Init(config), Next(config), s => Inv(config, s), s => Work(config, s),
                      (s, e) => Enabled(s, e), schedule, 0, k);
  }

  lemma StepWithoutFailure(config: Config, s: State)
    requires Inv(config, s) && !AllReturned(s)
    ensures exists e: Event :: !e.fails && Enabled(s, e)
  {
    var w :| 0 <= w < |s.phases| && s.phases[w] != Returned;
    var e := Step(if s.locked then s.runErr.value.taskID else w, false);
    assert !e.fails && Enabled(s, e);
  }

  /** No deadlock on the mutex: until all tasks have returned, some task can take a step. */
  lemma SomeTaskCanStep(config: Config, schedule: seq<Event>, k: nat)
    requires k <= |schedule| && !AllReturned(At(config, schedule, k))
    ensures exists e: Event :: Enabled(At(config, schedule, k), e)
  {
    AlwaysInv(config, schedule, k);
    StepWithoutFailure(config, At(config, schedule, k));
  }

  /** From every reachable state all tasks can return without a further failure. */
  lemma CanFinish(config: Config, schedule: seq<Event>) returns (finish: seq<Event>)
    ensures forall e :: e in finish ==> !e.fails
    ensures AllReturned(At(config, schedule + finish, |schedule + finish|))
  {
    AlwaysInv(config, schedule, |schedule|);
    forall s, e | Inv(config, s) ensures Inv(config, Next(config)(s, e)) {
      ApplyInv(config, s, e);
    }
    forall s | Inv(config, s)
      ensures Work(config, s) >= 0
      ensures !AllReturned(s) ==> exists e: Event :: !e.fails && Work(config, Next(config)(s, e)) < Work(config, s)
    {
      WorkIsNonNegative(config, s);
      if !AllReturned(s) {
        StepWithoutFailure(config, s);
        var e: Event :| !e.fails && Enabled(s, e);
        StepUsesWork(config, s, e);
        assert Work(config, Next(config)(s, e)) < Work(config, s);
      }
    }
    hide Inv;
    hide Work;
    finish := Traces.CanFinish(Init(config), Next(config), s => Inv(config, s), s => AllReturned(s),
                               (e: Event) => !e.fails, s => Work(config, s), schedule);
  }
}
