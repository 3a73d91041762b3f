// File mode: readResultFile and compareConfiguredFiles of dbHelper/compare_results.go,
// beside the script python/main.py whose verdicts they are meant to reproduce. The text
// functions are generic because Go runs them on bytes and Python on code points.
module ResultFiles {
  import opened Basics
  import opened Utf8
  import opened Sorting
  import opened RowKey
  import opened CompareResults

  /** strings.ReplaceAll of the pair (cr, lf) by lf. */
  function ReplaceCrLf<T(==)>(cr: T, lf: T, s: seq<T>): seq<T> {
    if s == [] then []
    else if |s| > 1 && s[0] == cr && s[1] == lf then [lf] + ReplaceCrLf(cr, lf, s[2..])
    else [s[0]] + ReplaceCrLf(cr, lf, s[1..])
  }

  /** strings.ReplaceAll of cr by lf. */
  function ReplaceCr<T(==)>(cr: T, lf: T, s: seq<T>): seq<T> {
    Map((c: T) => if c == cr then lf else c, s)
  }

  /** Python's universal newlines: one pass that looks one symbol ahead after a cr. */
  function UniversalNewlines<T(==)>(cr: T, lf: T, s: seq<T>): seq<T> {
    if s == [] then []
    else if s[0] != cr then [s[0]] + UniversalNewlines(cr, lf, s[1..])
    else [lf] + UniversalNewlines(cr, lf, if |s| > 1 && s[1] == lf then s[2..] else s[1..])
  }

  /** Length of the first line of s, its line feed included. */
  function LineLength<T(==)>(lf: T, s: seq<T>): (n: nat)
    ensures n <= |s| && (s != [] ==> n > 0)
    ensures n < |s| ==> n > 0 && s[n - 1] == lf
    ensures forall i :: 0 <= i < n - 1 ==> s[i] != lf
  {
    if s == [] then 0 else if s[0] == lf then 1 else 1 + LineLength(lf, s[1..])
  }

  /** Python's readlines. */
  function Lines<T(==)>(lf: T, s: seq<T>): seq<seq<T>> {
    if s == [] then [] else
      var n := LineLength(lf, s);
      [s[..n]] + Lines(lf, s[n..])
  }

  /** Go's strings.SplitAfter: a final line feed is followed by one more, empty piece. */
  function SplitAfter<T(==)>(lf: T, s: seq<T>): (pieces: seq<seq<T>>)
    ensures pieces != []
  {
    var n := LineLength(lf, s);
    if s == [] || s[n - 1] != lf then [s] else [s[..n]] + SplitAfter(lf, s[n..])
  }

  /** The two replacement passes of the Go reader are the one-pass newline automaton. */
  lemma {:induction false} TwoPassesAreUniversal<T>(cr: T, lf: T, s: seq<T>)
    requires cr != lf
    ensures ReplaceCr(cr, lf, ReplaceCrLf(cr, lf, s)) == UniversalNewlines(cr, lf, s)
  {
    if s == [] {
    } else {
      var skip := if |s| > 1 && s[0] == cr && s[1] == lf then 2 else 1;
      TwoPassesAreUniversal(cr, lf, s[skip..]);
      assert ReplaceCrLf(cr, lf, s)[1..] == ReplaceCrLf(cr, lf, s[skip..]);
      assert ReplaceCr(cr, lf, ReplaceCrLf(cr, lf, s))[1..] == ReplaceCr(cr, lf, ReplaceCrLf(cr, lf, s[skip..]));
    }
  }

  lemma NewlinesFront<T>(cr: T, lf: T, s: seq<T>)
    requires s != []
    ensures var skip := if |s| > 1 && s[0] == cr && s[1] == lf then 2 else 1;
      UniversalNewlines(cr, lf, s) == [if s[0] == cr then lf else s[0]] + UniversalNewlines(cr, lf, s[skip..])
  {}

  /** Universal newlines, one symbol at a time: a cr becomes an lf, an lf right after a cr
      adds nothing, and every other symbol stays. */
  lemma {:induction false} NewlinesOneMore<T>(cr: T, lf: T, s: seq<T>, c: T)
    requires cr != lf
    ensures UniversalNewlines(cr, lf, []) == []
    ensures UniversalNewlines(cr, lf, s + [c]) == UniversalNewlines(cr, lf, s) +
      if c == lf && s != [] && s[|s| - 1] == cr then [] else if c == cr then [lf] else [c]
    decreases |s|
  {
    assert UniversalNewlines(cr, lf, []) == [];
    hide UniversalNewlines;
    NewlinesFront(cr, lf, s + [c]);
    if s == [] {
      assert ([] + [c])[1..] == [];
    } else {
      NewlinesFront(cr, lf, s);
      if s == [cr] && c == lf {
        assert [cr, lf][2..] == [] && [cr][1..] == [];
      } else {
        var skip := if |s| > 1 && s[0] == cr && s[1] == lf then 2 else 1;
        NewlinesOneMore(cr, lf, s[skip..], c);
        assert (s + [c])[skip..] == s[skip..] + [c];
      }
    }
  }

  /** No carriage return is left, and text without one stays as it is. */
  lemma {:induction false} NewlinesRemoveReturns<T>(cr: T, lf: T, s: seq<T>)
    requires cr != lf
    ensures cr !in UniversalNewlines(cr, lf, s)
    ensures cr !in s ==> UniversalNewlines(cr, lf, s) == s
    decreases |s|
  {
    if s == [] {
    } else {
      var front := s[..|s| - 1];
      NewlinesRemoveReturns(cr, lf, front);
      NewlinesOneMore(cr, lf, front, s[|s| - 1]);
      assert s == front + [s[|s| - 1]];
    }
  }

  /** Lines concatenate back to the text. */
  lemma {:induction false} LinesConcatenate<T>(lf: T, s: seq<T>)
    ensures Flatten(Lines(lf, s)) == s
  {
    if s == [] {
    } else {
      var n := LineLength(lf, s);
      LinesConcatenate(lf, s[n..]);
      assert s == s[..n] + s[n..];
      assert Lines(lf, s)[1..] == Lines(lf, s[n..]);
    }
  }

  /** Every line but the last ends with a line feed, and a line feed occurs nowhere else. */
  lemma {:induction false} LinesEndAtLineFeeds<T>(lf: T, s: seq<T>, i: nat)
    requires i < |Lines(lf, s)|
    ensures var line := Lines(lf, s)[i];
      && line != [] && lf !in line[..|line| - 1]
      && (i < |Lines(lf, s)| - 1 ==> line[|line| - 1] == lf)
    decreases i
  {
    var n := LineLength(lf, s);
    if i == 0 {
      assert n == |s| ==> Lines(lf, s[n..]) == [];
    } else {
      LinesEndAtLineFeeds(lf, s[n..], i - 1);
    }
  }

  /** Dropping the empty last piece of SplitAfter leaves the lines. */
  lemma {:induction false} SplitAfterGivesLines<T>(lf: T, s: seq<T>)
    requires s != []
    ensures var pieces := SplitAfter(lf, s);
      Lines(lf, s) == if pieces[|pieces| - 1] == [] then pieces[..|pieces| - 1] else pieces
  {
    var n := LineLength(lf, s);
    if s[n - 1] == lf {
      if n == |s| {
        assert s[n..] == [] && s[..n] == s;
        assert Lines(lf, s[n..]) == [];
        assert SplitAfter(lf, s) == [s] + [[]];
      } else {
        SplitAfterGivesLines(lf, s[n..]);
        var rest := SplitAfter(lf, s[n..]);
        assert SplitAfter(lf, s) == [s[..n]] + rest;
        assert ([s[..n]] + rest)[..|rest|] == [s[..n]] + rest[..|rest| - 1];
      }
    } else {
      assert s[..n] == s && s[n..] == [];
      assert Lines(lf, s[n..]) == [];
    }
  }

  // ---------- The Go side ----------

  function FileContent(data: Bytes): Bytes {
    UniversalNewlines(CR, LF, data)
  }

  function LineRow(line: Bytes): Row {
    [Cell(line, false)]
  }

  /** The rows of a file, or nothing when it is not valid UTF-8. */
  function FileRows(data: Bytes): Option<seq<Row>> {
    if Valid(data) then Some(Map(LineRow, Lines(LF, FileContent(data)))) else None
  }

  ghost function TextOf(): Row -> Bytes {
    (row: Row) => if row == [] then [] else row[0].value
  }

  /** Each row of a file is one text cell that ends at a line feed or at the end of the file,
      and the rows together are the content, without a carriage return. */
  lemma FileRowsAreLines(data: Bytes, i: nat)
    requires Valid(data)
    ensures FileRows(data).Some? && Flatten(Map(TextOf(), FileRows(data).value)) == FileContent(data)
    ensures 13 !in FileContent(data) && (13 !in data ==> FileContent(data) == data)
    ensures i < |FileRows(data).value| ==>
      var row := FileRows(data).value[i];
      && |row| == 1 && !row[0].isNull && row[0].value != []
      && 10 !in row[0].value[..|row[0].value| - 1]
      && (i < |FileRows(data).value| - 1 ==> row[0].value[|row[0].value| - 1] == 10)
  {
    var content := FileContent(data);
    NewlinesRemoveReturns(CR, LF, data);
    LinesConcatenate(LF, content);
    assert Map(TextOf(), FileRows(data).value) == Lines(LF, content);
    if i < |Lines(LF, content)| {
      LinesEndAtLineFeeds(LF, content, i);
    }
  }

  // The files that os.ReadFile can read.
  type Directory = map<Bytes, Bytes>

  datatype ReadResult = Rows(rows: seq<Row>) | Unreadable | NotUtf8

  method ReadResultFile(files: Directory, fileName: Bytes) returns (result: ReadResult)
    ensures result.Unreadable? <==> fileName !in files
    ensures result.NotUtf8? <==> fileName in files && !Valid(files[fileName])
    ensures result.Rows? ==> FileRows(files[fileName]) == Some(result.rows)
  {
    if fileName !in files {
      return Unreadable;
    }
    var data := files[fileName];
    if !Valid(data) {
      return NotUtf8;
    }
    var cr: Byte, lf: Byte := CR, LF;
    var content := ReplaceCrLf(cr, lf, data);
    content := ReplaceCr(cr, lf, content);
    TwoPassesAreUniversal(cr, lf, data);
    if content == [] {
      return Rows([]);
    }
    var lines := SplitAfter(lf, content);
    SplitAfterGivesLines(lf, content);
    if lines[|lines| - 1] == [] {
      lines := lines[..|lines| - 1];
    }
    var rows := RowPerLine(lines);
    return Rows(rows);
  }

  method RowPerLine(lines: seq<Bytes>) returns (rows: seq<Row>)
    ensures rows == Map(LineRow, lines)
  {
    rows := [];
    for i := 0 to |lines|
      invariant |rows| == i && forall k :: 0 <= k < i ==> rows[k] == LineRow(lines[k])
    {
      rows := rows + [[Cell(lines[i], false)]];
    }
  }

  /** The contents of both files are readable as text and their rows compare equal. */
  ghost predicate GoAccepts(settings: Settings, expected: Bytes, actual: Bytes) {
    && FileRows(expected).Some? && FileRows(actual).Some?
    && Reports(settings, FileRows(expected).value, FileRows(actual).value, None)
  }

  datatype FileError =
    | MissingName
    | BadExpected(read: ReadResult)
    | BadActual(read: ReadResult)
    | Different(mismatch: Mismatch)

  ghost predicate ReadFails(files: Directory, fileName: Bytes, read: ReadResult) {
    || (read.Unreadable? && fileName !in files)
    || (read.NotUtf8? && fileName in files && !Valid(files[fileName]))
  }

  ghost predicate Reads(files: Directory, fileName: Bytes) {
    fileName in files && Valid(files[fileName])
  }

  /** compareConfiguredFiles: the names, the expected file and the actual file are looked at
      in this order, and a mismatch is that of the rows of the two files. */
  method CompareConfiguredFiles(settings: Settings, files: Directory, expectedFile: Bytes, actualFile: Bytes)
    returns (error: Option<FileError>)
    ensures var named := !IsBlank(expectedFile) && !IsBlank(actualFile);
      match error
      case None => named && expectedFile in files && actualFile in files
                   && GoAccepts(settings, files[expectedFile], files[actualFile])
      case Some(MissingName) => !named
      case Some(BadExpected(read)) => named && ReadFails(files, expectedFile, read)
      case Some(BadActual(read)) => named && Reads(files, expectedFile) && ReadFails(files, actualFile, read)
      case Some(Different(mismatch)) =>
        && named && Reads(files, expectedFile) && Reads(files, actualFile)
        && Reports(settings, FileRows(files[expectedFile]).value, FileRows(files[actualFile]).value, Some(mismatch))
    ensures error == None <==>
      && !IsBlank(expectedFile) && !IsBlank(actualFile) && expectedFile in files && actualFile in files
      && GoAccepts(settings, files[expectedFile], files[actualFile])
  {
    if TrimLeft(expectedFile) == [] || TrimLeft(actualFile) == [] {
      return Some(MissingName);
    }
    var expected := ReadResultFile(files, expectedFile);
    if !expected.Rows? {
      return Some(BadExpected(expected));
    }
    var actual := ReadResultFile(files, actualFile);
    if !actual.Rows? {
      return Some(BadActual(actual));
    }
    var _, _, mismatch := ComparePreparedResultRows(settings, expected.rows, actual.rows);
    return if mismatch.None? then None else Some(Different(mismatch.value));
  }

  // ---------- The Python side ----------

  /** readlines of a text-mode file, as strings of code points. */
  function PythonLines(data: Bytes): seq<seq<Scalar>> {
    Lines(LINE_FEED, UniversalNewlines(CARRIAGE_RETURN, LINE_FEED, Decode(data)))
  }

  function CodePoints(): seq<Scalar> -> seq<int> {
    (line: seq<Scalar>) => line
  }

  /** The script's comparison loop. */
  method SameInOrder(file1: seq<seq<Scalar>>, file2: seq<seq<Scalar>>) returns (same: bool)
    requires |file1| == |file2|
    ensures same <==> file1 == file2
  {
    var i := 0;
    while i < |file1|
      invariant i <= |file1| && forall k :: 0 <= k < i ==> file1[k] == file2[k]
    {
      if file1[i] != file2[i] {
        return false;
      }
      i := i + 1;
    }
    return true;
  }

  /** The script accepts exactly the decodable files with the same lines up to order. */
  method PythonMain(data1: Bytes, data2: Bytes) returns (success: bool)
    ensures success <==> Valid(data1) && Valid(data2) && multiset(PythonLines(data1)) == multiset(PythonLines(data2))
  {
    if !Valid(data1) || !Valid(data2) {
      return false;
    }
    var file1, file2 := PythonLines(data1), PythonLines(data2);
    SortedEqualityIsMultisetEquality(file1, file2);
    if |file1| != |file2| {
      return false;
    }
    file1 := SortStably(file1, CodePoints());
    file2 := SortStably(file2, CodePoints());
    success := SameInOrder(file1, file2);
  }

  lemma {:induction false} SortedEqualityIsMultisetEquality(a: seq<seq<Scalar>>, b: seq<seq<Scalar>>)
    ensures |SortStably(a, CodePoints())| == |a| && |SortStably(b, CodePoints())| == |b|
    ensures SortStably(a, CodePoints()) == SortStably(b, CodePoints()) <==> multiset(a) == multiset(b)
    ensures multiset(a) == multiset(b) ==> |a| == |b|
  {
    var sa, sb := SortStably(a, CodePoints()), SortStably(b, CodePoints());
    SortStablyIsStable(a, CodePoints());
    SortStablyIsStable(b, CodePoints());
    assert |multiset(a)| == |a| && |multiset(sa)| == |sa|;
    assert |multiset(b)| == |b| && |multiset(sb)| == |sb|;
    if multiset(a) == multiset(b) {
      SameLinesSortAlike(sa, sb);
    }
  }

  lemma SameLinesSortAlike(a: seq<seq<Scalar>>, b: seq<seq<Scalar>>)
    requires Sorted(Map(CodePoints(), a)) && Sorted(Map(CodePoints(), b))
    requires multiset(a) == multiset(b)
    ensures a == b
  {
    MapKeepsMultiset(CodePoints(), a, b);
    SortedIsUnique(Map(CodePoints(), a), Map(CodePoints(), b));
    assert |a| == |Map(CodePoints(), a)| == |b|;
    forall i | 0 <= i < |a| ensures a[i] == b[i] {
      assert Map(CodePoints(), a)[i] == Map(CodePoints(), b)[i];
    }
  }

  // ---------- Agreement ----------

  lemma {:induction false} NewlinesSkip<T>(cr: T, lf: T, a: seq<T>, b: seq<T>)
    requires cr !in a
    ensures UniversalNewlines(cr, lf, a + b) == a + UniversalNewlines(cr, lf, b)
  {
    if a == [] {
      assert a + b == b;
    } else {
      assert (a + b)[1..] == a[1..] + b;
      NewlinesSkip(cr, lf, a[1..], b);
    }
  }

  /** Newline translation commutes with encoding. */
  lemma {:induction false} NewlinesCommute(rs: seq<Scalar>)
    ensures FileContent(Encode(rs)) == Encode(UniversalNewlines(CARRIAGE_RETURN, LINE_FEED, rs))
  {
    if rs == [] {
    } else {
      NewlinesCommute(rs[1..]);
      if rs[0] != CARRIAGE_RETURN {
        NewlinesSkip(CR, LF, EncodeRune(rs[0]), Encode(rs[1..]));
      } else {
        assert Encode(rs)[1..] == Encode(rs[1..]);
        if |rs| > 1 {
          assert rs[1..][0] == rs[1];
          assert EncodeRune(rs[1])[0] in EncodeRune(rs[1]);
          if rs[1] == LINE_FEED {
            NewlinesCommute(rs[2..]);
            assert rs[1..][1..] == rs[2..];
            assert Encode(rs)[2..] == Encode(rs[2..]);
          }
        }
      }
    }
  }

  lemma {:induction false} LineLengthSkip<T>(lf: T, a: seq<T>, b: seq<T>)
    requires lf !in a
    ensures LineLength(lf, a + b) == |a| + LineLength(lf, b)
  {
    if a == [] {
      assert a + b == b;
    } else {
      assert (a + b)[1..] == a[1..] + b;
      LineLengthSkip(lf, a[1..], b);
    }
  }

  lemma {:induction false} LineLengthCommutes(rs: seq<Scalar>)
    ensures LineLength(LF, Encode(rs)) == |Encode(rs[..LineLength(LINE_FEED, rs)])|
  {
    if rs == [] {
    } else {
      var n := LineLength(LINE_FEED, rs);
      assert rs[..n][1..] == rs[1..][..n - 1];
      if rs[0] != LINE_FEED {
        LineLengthCommutes(rs[1..]);
        LineLengthSkip(LF, EncodeRune(rs[0]), Encode(rs[1..]));
      }
    }
  }

  lemma {:induction false} EncodeSplit(rs: seq<Scalar>, n: nat)
    requires n <= |rs|
    ensures var size := |Encode(rs[..n])|;
      size <= |Encode(rs)| && Encode(rs)[..size] == Encode(rs[..n]) && Encode(rs)[size..] == Encode(rs[n..])
  {
    assert rs == rs[..n] + rs[n..];
    EncodeAppend(rs[..n], rs[n..]);
    hide Encode;
    SplitAppend(Encode(rs[..n]), Encode(rs[n..]));
  }

  /** Cutting into lines commutes with encoding. */
  lemma {:induction false} LinesCommute(rs: seq<Scalar>)
    ensures Lines(LF, Encode(rs)) == Map(Encode, Lines(LINE_FEED, rs))
  {
    if rs == [] {
    } else {
      var n := LineLength(LINE_FEED, rs);
      LineLengthCommutes(rs);
      EncodeSplit(rs, n);
      LinesCommute(rs[n..]);
      assert Lines(LF, Encode(rs)) == [Encode(rs[..n])] + Lines(LF, Encode(rs[n..]));
      MapAppend(Encode, [rs[..n]], Lines(LINE_FEED, rs[n..]));
    }
  }

  /** The Go rows of a valid file are its Python lines, encoded. */
  lemma {:induction false} GoReadsPythonLines(data: Bytes)
    requires Valid(data)
    ensures Lines(LF, FileContent(data)) == Map(Encode, PythonLines(data))
  {
    EncodeDecode(data);
    NewlinesCommute(Decode(data));
    LinesCommute(UniversalNewlines(CARRIAGE_RETURN, LINE_FEED, Decode(data)));
  }

  // What the row of a line means to the case-sensitive comparison, and the way back.
  ghost function LineMeaning(): seq<Scalar> -> Cells {
    (line: seq<Scalar>) => [Some(Encode(line))]
  }

  ghost function LineOf(): Cells -> seq<Scalar> {
    (cells: Cells) => if |cells| == 1 && cells[0].Some? then Decode(cells[0].value) else []
  }

  lemma RowsMeanLines(settings: Settings, data: Bytes)
    requires settings.caseSensitive && Valid(data)
    ensures NormalRows(settings, FileRows(data).value) == Map(LineMeaning(), PythonLines(data))
  {
    GoReadsPythonLines(data);
    var rows, lines := FileRows(data).value, PythonLines(data);
    assert |rows| == |lines|;
    forall i | 0 <= i < |rows| ensures NormalRow(settings, rows[i]) == LineMeaning()(lines[i]) {
      assert rows[i] == LineRow(Encode(lines[i]));
    }
  }

  /** With sorting and case sensitivity on, Go accepts exactly the pairs the script accepts. */
  lemma {:induction false} FileModeAgreesWithPython(settings: Settings, data1: Bytes, data2: Bytes)
    requires settings.sortRows && settings.caseSensitive
    ensures GoAccepts(settings, data1, data2)
       <==> Valid(data1) && Valid(data2) && multiset(PythonLines(data1)) == multiset(PythonLines(data2))
  {
    if Valid(data1) && Valid(data2) {
      SortedComparisonIsMultisetEquality(settings, FileRows(data1).value, FileRows(data2).value);
      RowsMeanLines(settings, data1);
      RowsMeanLines(settings, data2);
      forall line ensures LineOf()(LineMeaning()(line)) == line {
        DecodeEncode(line);
      }
      MapReflectsMultiset(LineMeaning(), LineOf(), PythonLines(data1), PythonLines(data2));
    }
  }
}
