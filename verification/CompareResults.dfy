// Result-set comparison of dbHelper/compare_results.go: rows of nullable cells are
// optionally sorted by their key and then compared position by position.
module CompareResults {
  import opened Basics
  import opened Utf8
  import opened Sorting
  import opened CaseFolding
  import opened RowKey

  datatype Settings = Settings(sortRows: bool, caseSensitive: bool, classes: FoldClasses)

  // compareCell; the value of a NULL cell is ignored.
  datatype Cell = Cell(value: Bytes, isNull: bool)

  type Row = seq<Cell>

  datatype Mismatch =
    | LengthNotEqual(expected: nat, actual: nat)
    | IncorrectRow(index: nat)

  function NormalCell(settings: Settings, cell: Cell): Option<Bytes> {
    if cell.isNull then None else Some(Normalize(settings.caseSensitive, settings.classes, cell.value))
  }

  /** What a row means: its cells, NULL apart, every text in its normal form. */
  function NormalRow(settings: Settings, row: Row): Cells {
    Map((cell: Cell) => NormalCell(settings, cell), row)
  }

  function RowMeaning(settings: Settings): Row -> Cells {
    (row: Row) => NormalRow(settings, row)
  }

  function NormalRows(settings: Settings, rows: seq<Row>): seq<Cells> {
    Map(RowMeaning(settings), rows)
  }

  function KeyOf(settings: Settings): Row -> seq<int> {
    (row: Row) => EncodeRow(NormalRow(settings, row))
  }

  /** Two cells hold the same: both NULL, or texts that are equal, case aside if so set. */
  ghost predicate CellsMatch(settings: Settings, a: Cell, b: Cell) {
    && a.isNull == b.isNull
    && (a.isNull || if settings.caseSensitive then a.value == b.value
                    else FoldEquivalent(settings.classes, Decode(a.value), Decode(b.value)))
  }

  ghost predicate RowsMatch(settings: Settings, a: Row, b: Row) {
    |a| == |b| && forall i :: 0 <= i < |a| ==> CellsMatch(settings, a[i], b[i])
  }

  /** Rows have the same normal form exactly when their cells match one by one. */
  lemma NormalRowsMatch(settings: Settings, a: Row, b: Row)
    ensures NormalRow(settings, a) == NormalRow(settings, b) <==> RowsMatch(settings, a, b)
  {
    var na, nb := NormalRow(settings, a), NormalRow(settings, b);
    forall i | 0 <= i < |a| && i < |b| ensures na[i] == nb[i] <==> CellsMatch(settings, a[i], b[i]) {
      NormalizeIsFoldEquivalence(settings.classes, a[i].value, b[i].value);
    }
    assert |na| == |a| && |nb| == |b|;
  }

  method CompareRowsEqual(settings: Settings, expected: Row, actual: Row) returns (equal: bool)
    ensures equal <==> NormalRow(settings, expected) == NormalRow(settings, actual)
    ensures equal <==> RowsMatch(settings, expected, actual)
  {
    hide RowsMatch;
    hide Normalize;
    NormalRowsMatch(settings, expected, actual);
    ghost var e, a := NormalRow(settings, expected), NormalRow(settings, actual);
    if |expected| != |actual| {
      assert |e| != |a|;
      return false;
    }
    for i := 0 to |expected|
      invariant forall k :: 0 <= k < i ==> e[k] == a[k]
    {
      assert e[i] == NormalCell(settings, expected[i]) && a[i] == NormalCell(settings, actual[i]);
      if expected[i].isNull != actual[i].isNull {
        return false;
      }
      if expected[i].isNull {
        continue;
      }
      var expectedText := NormalizeCompareText(settings.caseSensitive, settings.classes, expected[i].value);
      var actualText := NormalizeCompareText(settings.caseSensitive, settings.classes, actual[i].value);
      if expectedText != actualText {
        return false;
      }
    }
    return true;
  }

  lemma EncodeFrom(cells: Cells, i: nat, prefix: Bytes)
    requires i < |cells|
    ensures prefix + EncodeRow(cells[i..]) == prefix + EncodeCell(cells[i]) + EncodeRow(cells[i + 1..])
  {
    assert cells[i..][1..] == cells[i + 1..];
  }

  method CompareRowKey(settings: Settings, row: Row) returns (key: Bytes)
    ensures key == EncodeRow(NormalRow(settings, row))
  {
    ghost var cells := NormalRow(settings, row);
    key := [];
    for i := 0 to |row|
      invariant key + EncodeRow(cells[i..]) == EncodeRow(cells)
    {
      EncodeFrom(cells, i, key);
      var token;
      if row[i].isNull {
        token := [NULL_MARK, SEMICOLON];
      } else {
        var value := NormalizeCompareText(settings.caseSensitive, settings.classes, row[i].value);
        token := [TEXT_MARK] + (Itoa(|value|) + ([COLON] + (value + [SEMICOLON])));
      }
      assert token == EncodeCell(cells[i]);
      key := key + token;
    }
    assert cells[|row|..] == [];
  }

  /** prepareCompareResultRows; the library sort is any stable sort, see PreparedIsTheStableSort. */
  function Prepare(settings: Settings, rows: seq<Row>): seq<Row> {
    if settings.sortRows then SortStably(rows, KeyOf(settings)) else rows
  }

  /** What the comparison reports for two row lists. */
  ghost predicate Reports(settings: Settings, expected: seq<Row>, actual: seq<Row>, result: Option<Mismatch>) {
    var e, a := NormalRows(settings, Prepare(settings, expected)), NormalRows(settings, Prepare(settings, actual));
    match result
    case Some(LengthNotEqual(n, m)) => n == |expected| != |actual| == m
    case Some(IncorrectRow(i)) => |expected| == |actual| && i < |e| == |a| && e[i] != a[i] && forall k :: 0 <= k < i ==> e[k] == a[k]
    case None => |expected| == |actual| && e == a
  }

  /** The rows as the comparison sees them: in the order of their keys and otherwise in their
      own order, or with sorting off as they were given. */
  ghost predicate IsPrepared(settings: Settings, rows: seq<Row>, prepared: seq<Row>) {
    if settings.sortRows then IsStableSort(rows, KeyOf(settings), prepared) else prepared == rows
  }

  /** The result in terms of the prepared rows: the two lengths if they differ, or else the
      first row that does not match, if there is one. */
  ghost predicate Explains(settings: Settings, expected: seq<Row>, actual: seq<Row>, result: Option<Mismatch>) {
    match result
    case Some(LengthNotEqual(n, m)) => n == |expected| && m == |actual| && n != m
    case Some(IncorrectRow(i)) =>
      && |expected| == |actual| && i < |expected| && !RowsMatch(settings, expected[i], actual[i])
      && forall k :: 0 <= k < i ==> RowsMatch(settings, expected[k], actual[k])
    case None => |expected| == |actual| && forall k :: 0 <= k < |expected| ==> RowsMatch(settings, expected[k], actual[k])
  }

  lemma PrepareMeetsContract(settings: Settings, rows: seq<Row>)
    ensures IsPrepared(settings, rows, Prepare(settings, rows)) && |Prepare(settings, rows)| == |rows|
  {
    PrepareKeepsRows(settings, rows);
    SortStablyIsStable(rows, KeyOf(settings));
  }

  /** A report is right about the normal forms exactly when it is right about the rows. */
  lemma ReportsIff(settings: Settings, expected: seq<Row>, actual: seq<Row>, result: Option<Mismatch>)
    ensures Reports(settings, expected, actual, result)
       <==> Explains(settings, Prepare(settings, expected), Prepare(settings, actual), result)
  {
    var e, a := Prepare(settings, expected), Prepare(settings, actual);
    PrepareKeepsRows(settings, expected);
    PrepareKeepsRows(settings, actual);
    forall i | 0 <= i < |e| && i < |a|
      ensures NormalRows(settings, e)[i] == NormalRows(settings, a)[i] <==> RowsMatch(settings, e[i], a[i])
    {
      NormalRowsMatch(settings, e[i], a[i]);
    }
    hide Prepare;
    hide RowsMatch;
    hide NormalRow;
  }

  method ComparePreparedResultRows(settings: Settings, expected: seq<Row>, actual: seq<Row>)
    returns (preparedExpected: seq<Row>, preparedActual: seq<Row>, result: Option<Mismatch>)
    ensures preparedExpected == Prepare(settings, expected) && preparedActual == Prepare(settings, actual)
    ensures IsPrepared(settings, expected, preparedExpected) && IsPrepared(settings, actual, preparedActual)
    ensures Explains(settings, preparedExpected, preparedActual, result)
    ensures Reports(settings, expected, actual, result)
  {
    PrepareMeetsContract(settings, expected);
    PrepareMeetsContract(settings, actual);
    hide IsPrepared;
    hide Prepare;
    hide RowsMatch;
    hide Reports;
    var rowCountError := None;
    if |expected| != |actual| {
      rowCountError := Some(LengthNotEqual(|expected|, |actual|));
    }
    preparedExpected, preparedActual := Prepare(settings, expected), Prepare(settings, actual);
    if rowCountError.Some? {
      ReportsIff(settings, expected, actual, rowCountError);
      return preparedExpected, preparedActual, rowCountError;
    }
    for i := 0 to |preparedExpected|
      invariant forall k :: 0 <= k < i ==> RowsMatch(settings, preparedExpected[k], preparedActual[k])
    {
      var equal := CompareRowsEqual(settings, preparedExpected[i], preparedActual[i]);
      if !equal {
        ReportsIff(settings, expected, actual, Some(IncorrectRow(i)));
        return preparedExpected, preparedActual, Some(IncorrectRow(i));
      }
    }
    ReportsIff(settings, expected, actual, None);
    return preparedExpected, preparedActual, None;
  }

  lemma PrepareKeepsRows(settings: Settings, rows: seq<Row>)
    ensures multiset(Prepare(settings, rows)) == multiset(rows)
    ensures |Prepare(settings, rows)| == |rows|
  {
    SortStablyIsStable(rows, KeyOf(settings));
    assert |multiset(Prepare(settings, rows))| == |Prepare(settings, rows)| && |multiset(rows)| == |rows|;
  }

  /** With sorting on, the prepared rows are the one list a stable sort by key can return. */
  lemma PreparedIsTheStableSort(settings: Settings, rows: seq<Row>, sorted: seq<Row>)
    requires settings.sortRows
    ensures sorted == Prepare(settings, rows) <==> IsStableSort(rows, KeyOf(settings), sorted)
  {
    SortStablyIsStable(rows, KeyOf(settings));
    if IsStableSort(rows, KeyOf(settings), sorted) {
      StableSortIsUnique(rows, KeyOf(settings), sorted, Prepare(settings, rows));
    }
  }

  /** Two rows have equal keys exactly when compareRowsEqual accepts them. */
  lemma RowKeyIsFaithful(settings: Settings, a: Row, b: Row)
    ensures KeyOf(settings)(a) == KeyOf(settings)(b) <==> NormalRow(settings, a) == NormalRow(settings, b)
  {
    KeysAreFaithful(NormalRow(settings, a), NormalRow(settings, b));
  }

  ghost function CellsKey(): Cells -> seq<int> {
    (cells: Cells) => EncodeRow(cells)
  }

  ghost function KeyCells(): seq<int> -> Cells {
    (key: seq<int>) => if exists c: Cells :: EncodeRow(c) == key then (var c: Cells :| EncodeRow(c) == key; c) else []
  }

  ghost function Keys(cells: seq<Cells>): seq<seq<int>> {
    Map(CellsKey(), cells)
  }

  /** Key sequences agree, in order or as multisets, exactly when the normalized rows do. */
  lemma KeysReflectRows(a: seq<Cells>, b: seq<Cells>)
    ensures Keys(a) == Keys(b) <==> a == b
    ensures multiset(Keys(a)) == multiset(Keys(b)) <==> multiset(a) == multiset(b)
  {
    forall c: Cells ensures KeyCells()(CellsKey()(c)) == c {
      var read := KeyCells()(EncodeRow(c));
      KeysAreFaithful(read, c);
    }
    MapReflectsMultiset(CellsKey(), KeyCells(), a, b);
    if Keys(a) == Keys(b) {
      assert |a| == |Keys(a)| == |b|;
      forall i | 0 <= i < |a| ensures a[i] == b[i] {
        assert Keys(a)[i] == Keys(b)[i];
      }
    }
  }

  /** At most one report fits two row lists, so "no error" is decided by the lists alone. */
  lemma ReportIsUnique(settings: Settings, expected: seq<Row>, actual: seq<Row>, r1: Option<Mismatch>, r2: Option<Mismatch>)
    requires Reports(settings, expected, actual, r1) && Reports(settings, expected, actual, r2)
    ensures r1 == r2
  {}

  /** The contract of ComparePreparedResultRows leaves one answer for two row lists. */
  lemma AnswerIsUnique(settings: Settings, expected: seq<Row>, actual: seq<Row>,
                       e1: seq<Row>, a1: seq<Row>, r1: Option<Mismatch>, e2: seq<Row>, a2: seq<Row>, r2: Option<Mismatch>)
    requires IsPrepared(settings, expected, e1) && IsPrepared(settings, actual, a1) && Explains(settings, e1, a1, r1)
    requires IsPrepared(settings, expected, e2) && IsPrepared(settings, actual, a2) && Explains(settings, e2, a2, r2)
    ensures e1 == e2 && a1 == a2 && r1 == r2
  {
    if settings.sortRows {
      StableSortIsUnique(expected, KeyOf(settings), e1, e2);
      StableSortIsUnique(actual, KeyOf(settings), a1, a2);
    }
    hide RowsMatch;
  }

  /** With sorting on, no error means equality as multisets of normalized rows. */
  lemma SortedComparisonIsMultisetEquality(settings: Settings, expected: seq<Row>, actual: seq<Row>)
    requires settings.sortRows
    ensures Reports(settings, expected, actual, None)
       <==> multiset(NormalRows(settings, expected)) == multiset(NormalRows(settings, actual))
  {
    var e, a := Prepare(settings, expected), Prepare(settings, actual);
    var ne, na := NormalRows(settings, e), NormalRows(settings, a);
    PrepareKeepsRows(settings, expected);
    PrepareKeepsRows(settings, actual);
    MapKeepsMultiset(RowMeaning(settings), e, expected);
    MapKeepsMultiset(RowMeaning(settings), a, actual);
    assert |multiset(ne)| == |ne| && |multiset(na)| == |na|;
    SortStablyIsStable(expected, KeyOf(settings));
    SortStablyIsStable(actual, KeyOf(settings));
    assert Map(KeyOf(settings), e) == Keys(ne) && Map(KeyOf(settings), a) == Keys(na);
    KeysReflectRows(ne, na);
    if multiset(ne) == multiset(na) {
      SortedIsUnique(Keys(ne), Keys(na));
    }
  }

  /** With sorting off, no error means equality position by position after normalization. */
  lemma UnsortedComparisonIsPointwise(settings: Settings, expected: seq<Row>, actual: seq<Row>)
    requires !settings.sortRows
    ensures Reports(settings, expected, actual, None) <==> NormalRows(settings, expected) == NormalRows(settings, actual)
  {
    assert |NormalRows(settings, expected)| == |expected| && |NormalRows(settings, actual)| == |actual|;
  }

  // ---------- What acceptance means, without normal forms or keys ----------

  /** p pairs off the rows so that paired rows match. */
  ghost predicate RowsPairOff(settings: Settings, expected: seq<Row>, actual: seq<Row>, p: seq<nat>) {
    && |expected| == |actual| && IsPermutation(p, |expected|)
    && forall i :: 0 <= i < |expected| ==> RowsMatch(settings, expected[i], actual[p[i]])
  }

  lemma PairingOfRows(settings: Settings, expected: seq<Row>, actual: seq<Row>, p: seq<nat>)
    ensures PairsOff(NormalRows(settings, expected), NormalRows(settings, actual), p)
       <==> RowsPairOff(settings, expected, actual, p)
  {
    if |expected| == |actual| && IsPermutation(p, |expected|) {
      forall i | 0 <= i < |expected|
        ensures NormalRows(settings, expected)[i] == NormalRows(settings, actual)[p[i]]
           <==> RowsMatch(settings, expected[i], actual[p[i]])
      {
        NormalRowsMatch(settings, expected[i], actual[p[i]]);
      }
    }
  }

  /** With sorting on, the comparison succeeds exactly when the rows can be paired off so that
      paired rows match; with sorting off, exactly when they match position by position. */
  lemma AcceptanceMeansMatchingRows(settings: Settings, expected: seq<Row>, actual: seq<Row>)
    ensures settings.sortRows ==>
      (Reports(settings, expected, actual, None) <==> exists p :: RowsPairOff(settings, expected, actual, p))
    ensures !settings.sortRows ==>
      (Reports(settings, expected, actual, None) <==>
       |expected| == |actual| && forall i :: 0 <= i < |expected| ==> RowsMatch(settings, expected[i], actual[i]))
  {
    var e, a := NormalRows(settings, expected), NormalRows(settings, actual);
    if settings.sortRows {
      SortedComparisonIsMultisetEquality(settings, expected, actual);
      SameElementsPairOff(e, a);
      forall p ensures PairsOff(e, a, p) <==> RowsPairOff(settings, expected, actual, p) {
        PairingOfRows(settings, expected, actual, p);
      }
    } else {
      UnsortedComparisonIsPointwise(settings, expected, actual);
      forall i | 0 <= i < |expected| && i < |actual|
        ensures e[i] == a[i] <==> RowsMatch(settings, expected[i], actual[i])
      {
        NormalRowsMatch(settings, expected[i], actual[i]);
      }
    }
  }
}
