// Window-data generation of runWindowWorker in go/main/insert_window.go: a random number
// of rows is cut into random partitions, and each partition is flushed in statements of
// bounded size. Random draws are functions chosen from outside; the value columns are not
// part of this model, a row is its partition, o1 and o2.
module InsertWindow {
  import opened Basics

  datatype Row = Row(p: int, o1: nat, o2: nat)

  type Statement = seq<Row>

  /** The partitioning loop. */
  method GeneratePartitions(totalRowNum: nat, draw: nat -> nat) returns (partitions: seq<nat>)
    requires forall k :: 1 <= draw(k) <= 200000
    ensures Sum(partitions, Itself()) == totalRowNum
    ensures forall i :: 0 <= i < |partitions| ==> 1 <= partitions[i] <= 200000
    ensures forall i :: 0 <= i < |partitions| - 1 ==> partitions[i] == draw(i)
    ensures partitions != [] ==> partitions[|partitions| - 1] <= draw(|partitions| - 1)
  {
    partitions := [];
    var totalAppendedRowNum := 0;
    while totalAppendedRowNum < totalRowNum
      invariant totalAppendedRowNum == Sum(partitions, Itself()) <= totalRowNum
      invariant forall i :: 0 <= i < |partitions| ==> 1 <= partitions[i] <= 200000
      invariant forall i :: 0 <= i < |partitions| - 1 ==> partitions[i] == draw(i)
      invariant partitions != [] ==> partitions[|partitions| - 1] <= draw(|partitions| - 1)
      invariant partitions != [] && totalAppendedRowNum < totalRowNum ==> partitions[|partitions| - 1] == draw(|partitions| - 1)
      decreases totalRowNum - totalAppendedRowNum
    {
      var rowNum: nat := draw(|partitions|);
      if totalAppendedRowNum + rowNum > totalRowNum {
        rowNum := totalRowNum - totalAppendedRowNum;
      }
      SumAppend(partitions, [rowNum], Itself());
      partitions := partitions + [rowNum];
      totalAppendedRowNum := totalAppendedRowNum + rowNum;
    }
  }

  /** The o2 value of row i: how often it grew among rows 1..i. */
  function Growth(grows: nat -> bool, i: nat): nat {
    if i == 0 then 0 else Growth(grows, i - 1) + if grows(i) then 1 else 0
  }

  /** The rows of one partition: o1 counts 0, 1, 2, ... and o2 starts at 0 and never falls. */
  function PartitionRows(p: int, size: nat, grows: nat -> bool): seq<Row> {
    seq(size, i requires 0 <= i => Row(p, i, Growth(grows, i)))
  }

  /** Statements of at most 1001 rows, of which only the last may be short. */
  ghost predicate WellCut(statements: seq<Statement>) {
    && (forall k :: 0 <= k < |statements| ==> 1 <= |statements[k]| <= 1001)
    && (forall k :: 0 <= k < |statements| - 1 ==> |statements[k]| == 1001)
  }

  lemma OneMoreRow(p: int, size: nat, grows: nat -> bool)
    ensures PartitionRows(p, size + 1, grows) == PartitionRows(p, size, grows) + [Row(p, size, Growth(grows, size))]
  {}

  /** The batching loop over one partition. */
  method InsertPartition(partitionValue: int, size: nat, grows: nat -> bool) returns (executed: seq<Statement>)
    requires size > 0
    ensures Flatten(executed) == PartitionRows(partitionValue, size, grows)
    ensures WellCut(executed)
  {
    executed := [];
    var appendedValueCount := 1;
    var o2Value := 0;
    var insertSQL := [Row(partitionValue, 0, o2Value)];
    assert Flatten(executed) + insertSQL == PartitionRows(partitionValue, 1, grows);
    hide PartitionRows;
    hide Flatten;
    for i := 1 to size
      invariant Flatten(executed) + insertSQL == PartitionRows(partitionValue, i, grows)
      invariant forall k :: 0 <= k < |executed| ==> |executed[k]| == 1001
      invariant 1 <= |insertSQL| == appendedValueCount <= 1001
      invariant o2Value == Growth(grows, i - 1)
    {
      if grows(i) {
        o2Value := o2Value + 1;
      }
      OneMoreRow(partitionValue, i, grows);
      if appendedValueCount > 1000 {
        FlattenAppend(executed, insertSQL);
        executed := executed + [insertSQL];
        insertSQL := [Row(partitionValue, i, o2Value)];
        appendedValueCount := 1;
        continue;
      }
      assert Flatten(executed) + insertSQL + [Row(partitionValue, i, o2Value)]
          == Flatten(executed) + (insertSQL + [Row(partitionValue, i, o2Value)]);
      insertSQL := insertSQL + [Row(partitionValue, i, o2Value)];
      appendedValueCount := appendedValueCount + 1;
    }
    FlattenAppend(executed, insertSQL);
    executed := executed + [insertSQL];
  }

  /** o1 lists the partition exactly once in order; o2 starts at 0 and grows by 1 at the rows
      that draw it and otherwise stays. */
  lemma {:induction false} RowsAreOrdered(p: int, size: nat, grows: nat -> bool, i: nat)
    requires i < size
    ensures var rows := PartitionRows(p, size, grows);
      && |rows| == size && rows[i].p == p
      && rows[i].o1 == i && rows[i].o2 <= i && rows[0].o2 == 0
      && (i > 0 ==> rows[i].o2 - rows[i - 1].o2 == if grows(i) then 1 else 0)
  {
    if i == 0 {
    } else {
      RowsAreOrdered(p, size, grows, i - 1);
    }
  }

  ghost function RowCount(): seq<Statement> -> int {
    (executed: seq<Statement>) => |Flatten(executed)|
  }

  lemma CountPartition(executed: seq<seq<Statement>>, partitions: seq<nat>, k: nat, statements: seq<Statement>)
    requires k < |partitions| && |Flatten(statements)| == partitions[k]
    requires Sum(executed, RowCount()) == Sum(partitions[..k], Itself())
    ensures Sum(executed + [statements], RowCount()) == Sum(partitions[..k + 1], Itself())
  {
    SumAppend(executed, [statements], RowCount());
    assert partitions[..k + 1] == partitions[..k] + [partitions[k]];
    SumAppend(partitions[..k], [partitions[k]], Itself());
  }

  lemma PartitionSize(p: int, size: nat, grows: nat -> bool)
    ensures |PartitionRows(p, size, grows)| == size
  {}

  /** runWindowWorker: partition k of worker id is numbered 10000 * id + 1 + k. The executed
      statements hold every row of every partition once, in order, and the chosen total in all. */
  method RunWindowWorker(id: nat, totalRowNum: nat, draw: nat -> nat, grows: nat -> nat -> bool)
    returns (partitions: seq<nat>, executed: seq<seq<Statement>>)
    requires forall k :: 1 <= draw(k) <= 200000
    ensures |executed| == |partitions|
    ensures forall k :: 0 <= k < |executed| ==>
      WellCut(executed[k]) && Flatten(executed[k]) == PartitionRows(10000 * id + 1 + k, partitions[k], grows(k))
    ensures forall k :: 0 <= k < |partitions| ==> 1 <= partitions[k] <= 200000
    ensures forall k :: 0 <= k < |partitions| ==> if k < |partitions| - 1 then partitions[k] == draw(k) else partitions[k] <= draw(k)
    ensures Sum(executed, RowCount()) == totalRowNum
  {
    hide WellCut;
    hide PartitionRows;
    hide Flatten;
    partitions := GeneratePartitions(totalRowNum, draw);
    executed := [];
    var partitionValue := 10000 * id;
    for k := 0 to |partitions|
      invariant |executed| == k && partitionValue == 10000 * id + k
      invariant forall j :: 0 <= j < k ==>
        WellCut(executed[j]) && Flatten(executed[j]) == PartitionRows(10000 * id + 1 + j, partitions[j], grows(j))
      invariant Sum(executed, RowCount()) == Sum(partitions[..k], Itself())
    {
      partitionValue := partitionValue + 1;
      var statements := InsertPartition(partitionValue, partitions[k], grows(k));
      PartitionSize(partitionValue, partitions[k], grows(k));
      CountPartition(executed, partitions, k, statements);
      executed := executed + [statements];
    }
    assert partitions[..|partitions|] == partitions;
  }
}
