// Row partitioning and batching of dbHelper/insert_values.go. The database and the
// context are answers given from outside: whether the context is cancelled at a check,
// and whether a statement fails.
module InsertValues {
  import opened Basics

  const PROGRESS_INTERVAL := 50000

  datatype InsertTask = InsertTask(taskID: nat, insertCnt: nat)

  datatype TaskError = NoDatabase | TaskCanceled | InsertFailed

  /** Rows assigned to one of taskCount tasks. */
  function TaskSize(totalRowCnt: nat, taskCount: nat, taskID: nat): nat
    requires taskCount > 0
  {
    totalRowCnt / taskCount + if taskID < totalRowCnt % taskCount then 1 else 0
  }

  function TaskSizes(totalRowCnt: nat, taskCount: nat): seq<nat>
    requires taskCount > 0
  {
    seq(taskCount, taskID requires 0 <= taskID => TaskSize(totalRowCnt, taskCount, taskID))
  }

  ghost function RowTotal(statements: seq<nat>): nat {
    SumNonNegative(statements, Itself());
    Sum(statements, Itself())
  }

  method BuildInsertTasks(totalRowCnt: nat, taskCount: nat) returns (tasks: seq<InsertTask>)
    requires taskCount > 0
    ensures |tasks| == taskCount
    ensures forall i :: 0 <= i < taskCount ==> tasks[i] == InsertTask(i, TaskSize(totalRowCnt, taskCount, i))
  {
    tasks := [];
    var rowsPerTask := totalRowCnt / taskCount;
    var extraRows := totalRowCnt % taskCount;
    for taskID := 0 to taskCount
      invariant |tasks| == taskID
      invariant forall i :: 0 <= i < taskID ==> tasks[i] == InsertTask(i, TaskSize(totalRowCnt, taskCount, i))
    {
      var insertCnt := rowsPerTask;
      if taskID < extraRows {
        insertCnt := insertCnt + 1;
      }
      tasks := tasks + [InsertTask(taskID, insertCnt)];
    }
  }

  lemma {:induction false} FirstSizesSum(totalRowCnt: nat, taskCount: nat, k: nat)
    requires taskCount > 0 && k <= taskCount
    ensures Sum(TaskSizes(totalRowCnt, taskCount)[..k], Itself())
         == k * (totalRowCnt / taskCount) + Min(k, totalRowCnt % taskCount)
  {
    var sizes := TaskSizes(totalRowCnt, taskCount);
    if k == 0 {
    } else {
      FirstSizesSum(totalRowCnt, taskCount, k - 1);
      assert sizes[..k] == sizes[..k - 1] + [sizes[k - 1]];
      SumAppend(sizes[..k - 1], [sizes[k - 1]], Itself());
    }
  }

  /** The tasks share out exactly the configured rows, and their sizes differ by at most one. */
  lemma TaskSizesPartitionRows(totalRowCnt: nat, taskCount: nat)
    requires taskCount > 0
    ensures Sum(TaskSizes(totalRowCnt, taskCount), Itself()) == totalRowCnt
    ensures forall i, j :: 0 <= i < j < taskCount ==>
      0 <= TaskSize(totalRowCnt, taskCount, i) - TaskSize(totalRowCnt, taskCount, j) <= 1
  {
    FirstSizesSum(totalRowCnt, taskCount, taskCount);
    var sizes := TaskSizes(totalRowCnt, taskCount);
    assert sizes[..taskCount] == sizes;
  }

  /** Row counts of the statements that insert cnt rows. */
  function Batches(cnt: nat, batchSize: nat): seq<nat>
    requires batchSize > 0
  {
    if cnt == 0 then [] else
      var rowCount := Min(batchSize, cnt);
      [rowCount] + Batches(cnt - rowCount, batchSize)
  }

  /** A task issues ceil(cnt / batchSize) statements of 1..batchSize rows that add up to cnt,
      and only the last may be short. */
  lemma {:induction false} BatchesAreFullButLast(cnt: nat, batchSize: nat)
    requires batchSize > 0
    ensures var b := Batches(cnt, batchSize);
      && Sum(b, Itself()) == cnt
      && (forall i :: 0 <= i < |b| ==> 1 <= b[i] <= batchSize)
      && (forall i :: 0 <= i < |b| - 1 ==> b[i] == batchSize)
      && ((|b| - 1) * batchSize < cnt || b == [])
    ensures cnt <= |Batches(cnt, batchSize)| * batchSize
  {
    if cnt == 0 {
    } else {
      var n: nat := Min(batchSize, cnt);
      var rest := Batches(cnt - n, batchSize);
      BatchesAreFullButLast(cnt - n, batchSize);
      assert Batches(cnt, batchSize) == [n] + rest;
      assert (|rest| + 1) * batchSize == |rest| * batchSize + batchSize;
      assert (|rest| - 1) * batchSize == |rest| * batchSize - batchSize;
      hide Batches;
    }
  }

  /** The progress marks reached by inserted rows: every multiple of the interval, in order. */
  function Marks(inserted: nat): seq<nat> {
    seq(inserted / PROGRESS_INTERVAL, i requires 0 <= i => (i + 1) * PROGRESS_INTERVAL)
  }

  /** The marks are exactly the multiples of 50000 up to the inserted rows, in order. */
  lemma MarksAreMultiples(inserted: nat, m: nat)
    ensures m in Marks(inserted) <==> 0 < m <= inserted && m % 50000 == 0
    ensures forall i, j :: 0 <= i < j < |Marks(inserted)| ==> Marks(inserted)[i] < Marks(inserted)[j]
  {
    if 0 < m <= inserted && m % 50000 == 0 {
      assert Marks(inserted)[m / 50000 - 1] == m;
    }
  }

  function NextMark(progress: seq<nat>): nat {
    (|progress| + 1) * PROGRESS_INTERVAL
  }

  /** The inner loop of startToInsertForOneTask. */
  method PrintProgress(printed: seq<nat>, next: nat, ghost before: nat, inserted: nat)
    returns (progress: seq<nat>, nextProgress: nat)
    requires printed == Marks(before) && before <= inserted && next == NextMark(printed)
    ensures progress == Marks(inserted) && nextProgress == NextMark(progress)
  {
    progress, nextProgress := printed, next;
    while inserted >= nextProgress
      invariant progress == Marks(|progress| * PROGRESS_INTERVAL) && nextProgress == NextMark(progress)
      invariant |progress| * PROGRESS_INTERVAL <= inserted
      decreases inserted + PROGRESS_INTERVAL - nextProgress
    {
      progress := progress + [nextProgress];
      nextProgress := nextProgress + PROGRESS_INTERVAL;
    }
    assert |progress| == inserted / PROGRESS_INTERVAL;
  }

  lemma NextBatch(statements: seq<nat>, rest: nat, batchSize: nat)
    requires batchSize > 0 && rest > 0
    ensures var n := Min(batchSize, rest);
      && statements + Batches(rest, batchSize) == statements + [n] + Batches(rest - n, batchSize)
      && RowTotal(statements + [n]) == RowTotal(statements) + n
  {
    var n: nat := Min(batchSize, rest);
    SumAppend(statements, [n], Itself());
  }

  /** What startToInsertForOneTask may do. The n-th context check, made before each statement
      and after a failed one, finds a cancelled context if canceled(n); statement n fails if
      fails(n). Executed statements are a prefix of the batches; a "canceled" error comes only
      from a check that was due, so never after the last statement. */
  ghost predicate TaskOutcome(task: InsertTask, batchSize: nat, hasDatabase: bool, canceled: nat -> bool, fails: nat -> bool,
                              statements: seq<nat>, progress: seq<nat>, error: Option<TaskError>)
    requires batchSize > 0
  {
    var all, n := Batches(task.insertCnt, batchSize), |statements|;
    && statements <= all && progress == Marks(RowTotal(statements))
    && (forall k :: 0 <= k < n ==> !canceled(k) && !fails(k))
    && match error
       case None => hasDatabase && statements == all
       case Some(NoDatabase) => !hasDatabase && statements == []
       case Some(TaskCanceled) => hasDatabase && n < |all| && (canceled(n) || (fails(n) && canceled(n + 1)))
       case Some(InsertFailed) => hasDatabase && n < |all| && !canceled(n) && fails(n) && !canceled(n + 1)
  }

  /** The answers of context and database leave only one outcome, and it is success exactly
      when no check and no statement of the whole task goes wrong. */
  lemma TaskOutcomeIsUnique(task: InsertTask, batchSize: nat, hasDatabase: bool, canceled: nat -> bool, fails: nat -> bool,
                            statements1: seq<nat>, progress1: seq<nat>, error1: Option<TaskError>,
                            statements2: seq<nat>, progress2: seq<nat>, error2: Option<TaskError>)
    requires batchSize > 0
    requires TaskOutcome(task, batchSize, hasDatabase, canceled, fails, statements1, progress1, error1)
    requires TaskOutcome(task, batchSize, hasDatabase, canceled, fails, statements2, progress2, error2)
    ensures statements1 == statements2 && progress1 == progress2 && error1 == error2
    ensures error1 == None <==>
      hasDatabase && forall k :: 0 <= k < |Batches(task.insertCnt, batchSize)| ==> !canceled(k) && !fails(k)
    ensures error1 == None ==> RowTotal(statements1) == task.insertCnt && progress1 == Marks(task.insertCnt)
  {
    var all := Batches(task.insertCnt, batchSize);
    BatchesAreFullButLast(task.insertCnt, batchSize);
    assert |statements1| < |statements2| ==> error1.None?;
    assert |statements2| < |statements1| ==> error2.None?;
    assert statements1 == all[..|statements1|] && statements2 == all[..|statements2|];
  }

  /** startToInsertForOneTask. */
  method InsertForOneTask(task: InsertTask, batchSize: nat, hasDatabase: bool, canceled: nat -> bool, fails: nat -> bool)
    returns (statements: seq<nat>, progress: seq<nat>, error: Option<TaskError>)
    requires batchSize > 0
    ensures TaskOutcome(task, batchSize, hasDatabase, canceled, fails, statements, progress, error)
  {
    statements, progress := [], [];
    if !hasDatabase {
      return [], [], Some(NoDatabase);
    }
    var nextProgress := PROGRESS_INTERVAL;
    var inserted := 0;
    ghost var all := Batches(task.insertCnt, batchSize);
    while inserted < task.insertCnt
      invariant 0 <= inserted <= task.insertCnt
      invariant inserted == RowTotal(statements)
      invariant statements + Batches(task.insertCnt - inserted, batchSize) == all
      invariant forall k :: 0 <= k < |statements| ==> !canceled(k) && !fails(k)
      invariant progress == Marks(inserted) && nextProgress == NextMark(progress)
    {
      NextBatch(statements, task.insertCnt - inserted, batchSize);
      hide Batches;
      if canceled(|statements|) {
        return statements, progress, Some(TaskCanceled);
      }
      var rowCount := Min(batchSize, task.insertCnt - inserted);
      if fails(|statements|) {
        if canceled(|statements| + 1) {
          return statements, progress, Some(TaskCanceled);
        }
        return statements, progress, Some(InsertFailed);
      }
      statements := statements + [rowCount];
      inserted := inserted + rowCount;
      progress, nextProgress := PrintProgress(progress, nextProgress, inserted - rowCount, inserted);
    }
    assert Batches(0, batchSize) == [];
    error := None;
  }
}
