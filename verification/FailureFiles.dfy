// Collision-free naming of failure files: writeUniqueCompareFailureFile and
// writeCompareFailureFiles of dbHelper/compare_results.go. The directory is a map from
// names to contents; answers of the file system that are not determined by the map come
// from outside.
module FailureFiles {
  import opened Basics
  import opened Utf8
  import opened RowKey

  type Directory = map<Bytes, Bytes>

  // create fails for a reason other than an existing file; writing or closing fails and the
  // incomplete file is removed; or it stays behind, holding whatever got written.
  datatype Trouble = Nothing | CannotCreate | CannotWrite | CannotRemove(remains: Bytes)

  datatype Written = Written(name: Bytes) | Failed(trouble: Trouble)

  datatype BothWritten =
    | NoPairName
    | ExpectedFailed(trouble: Trouble)
    | ActualFailed(expectedName: Bytes, trouble: Trouble)
    | BothWritten(expectedName: Bytes, actualName: Bytes)

  // What stands before the extension to make a name different; the first name has nothing.
  function Middle(suffix: nat): Bytes {
    if suffix == 0 then [] else Ascii("(") + Itoa(suffix) + Ascii(")")
  }

  function FileName(pairName: Bytes, side: Bytes, suffix: nat): Bytes {
    pairName + Ascii("-") + side + Middle(suffix) + Ascii(".txt")
  }

  /** The first name is plain, and the later ones are numbered in decimal. */
  lemma FileNameFormat(pairName: Bytes, side: Bytes, suffix: nat)
    ensures FileName(pairName, side, 0) == pairName + Ascii("-") + side + Ascii(".txt")
    ensures suffix > 0 ==> exists digits :: (
      && IsNumeral(digits, suffix)
      && FileName(pairName, side, suffix) == pairName + Ascii("-") + side + Ascii("(") + digits + Ascii(").txt"))
  {
    assert Middle(0) == [];
    var stem, digits := pairName + Ascii("-") + side, Itoa(suffix);
    ItoaIsNumeral(suffix);
    assert stem + [] == stem;
    assert Ascii(").txt") == Ascii(")") + Ascii(".txt");
    assert stem + (Ascii("(") + digits + Ascii(")")) + Ascii(".txt") == stem + Ascii("(") + digits + (Ascii(")") + Ascii(".txt"));
  }

  lemma CancelFrame(stem: Bytes, a: Bytes, b: Bytes, end: Bytes)
    requires stem + a + end == stem + b + end
    ensures a == b
  {
    assert |stem + a + end| == |stem + b + end|;
    assert a == (stem + a + end)[|stem|..|stem| + |a|];
    assert b == (stem + b + end)[|stem|..|stem| + |b|];
  }

  /** Different suffixes give different names. */
  lemma NamesAreDistinct(pairName: Bytes, side: Bytes, i: nat, j: nat)
    requires FileName(pairName, side, i) == FileName(pairName, side, j)
    ensures i == j
  {
    hide Itoa;
    CancelFrame(pairName + Ascii("-") + side, Middle(i), Middle(j), Ascii(".txt"));
    MiddleLength(i);
    MiddleLength(j);
    if i > 0 && j > 0 {
      CancelFrame(Ascii("("), Itoa(i), Itoa(j), Ascii(")"));
      AtoiItoa(i);
      AtoiItoa(j);
    }
  }

  lemma MiddleLength(suffix: nat)
    ensures |Middle(suffix)| == 0 <==> suffix == 0
  {}

  /** The names with a suffix below n. */
  ghost function NamesBelow(pairName: Bytes, side: Bytes, n: nat): set<Bytes> {
    set k: nat | k < n :: FileName(pairName, side, k)
  }

  lemma {:induction false} NamesBelowCount(pairName: Bytes, side: Bytes, n: nat)
    ensures |NamesBelow(pairName, side, n)| == n
  {
    hide FileName;
    if n == 0 {
    } else {
      NamesBelowCount(pairName, side, n - 1);
      var last := FileName(pairName, side, n - 1);
      assert NamesBelow(pairName, side, n) == NamesBelow(pairName, side, n - 1) + {last};
      if last in NamesBelow(pairName, side, n - 1) {
        var k: nat :| k < n - 1 && FileName(pairName, side, k) == last;
        NamesAreDistinct(pairName, side, k, n - 1);
      }
    }
  }

  /** The name loop stops within as many turns as the directory has files. */
  lemma TakenNamesAreFew(pairName: Bytes, side: Bytes, files: Directory, n: nat)
    requires forall k: nat :: k < n ==> FileName(pairName, side, k) in files
    ensures n <= |files|
  {
    NamesBelowCount(pairName, side, n);
    assert NamesBelow(pairName, side, n) <= files.Keys;
    SubsetSize(NamesBelow(pairName, side, n), files.Keys);
  }

  lemma {:induction false} SubsetSize<T>(a: set<T>, b: set<T>)
    requires a <= b
    ensures |a| <= |b|
  {
    assert b == a + (b - a);
  }

  /** The name is the free one with the least suffix. */
  ghost predicate FirstFree(files: Directory, pairName: Bytes, side: Bytes, name: Bytes) {
    && name !in files
    && exists suffix: nat :: name == FileName(pairName, side, suffix)
                             && forall k: nat :: k < suffix ==> FileName(pairName, side, k) in files
  }

  // The directory after an attempt to write one file under a free name.
  ghost predicate Attempted(files: Directory, name: Bytes, content: Bytes, trouble: Trouble, after: Directory) {
    after == match trouble
             case Nothing => files[name := content]
             case CannotCreate | CannotWrite => files
             case CannotRemove(remains) => files[name := remains]
  }

  // The same, whatever the name turns out to be.
  ghost predicate AttemptedFirstFree(files: Directory, pairName: Bytes, side: Bytes, content: Bytes, trouble: Trouble, after: Directory) {
    exists name :: FirstFree(files, pairName, side, name) && Attempted(files, name, content, trouble, after)
  }

  /** Two names that are both the first free one are the same. */
  lemma FirstFreeIsUnique(files: Directory, pairName: Bytes, side: Bytes, name1: Bytes, name2: Bytes)
    requires FirstFree(files, pairName, side, name1) && FirstFree(files, pairName, side, name2)
    ensures name1 == name2
  {
    var i: nat :| name1 == FileName(pairName, side, i) && forall k: nat :: k < i ==> FileName(pairName, side, k) in files;
    var j: nat :| name2 == FileName(pairName, side, j) && forall k: nat :: k < j ==> FileName(pairName, side, k) in files;
    assert i >= j && j >= i;
  }

  /** The file gets the first free name and nothing else in the directory changes. A failure
      leaves the directory as it was, unless the incomplete file cannot be removed. */
  method WriteUniqueCompareFailureFile(files: Directory, pairName: Bytes, side: Bytes, content: Bytes, trouble: Trouble)
    returns (after: Directory, result: Written)
    ensures match result
      case Written(name) => trouble.Nothing? && FirstFree(files, pairName, side, name) && after == files[name := content]
      case Failed(t) => t == trouble != Nothing && AttemptedFirstFree(files, pairName, side, content, t, after)
    ensures forall name :: name in files ==> name in after && after[name] == files[name]
  {
    var suffix := 0;
    TakenNamesAreFew(pairName, side, files, 0);
    while FileName(pairName, side, suffix) in files
      invariant forall k: nat :: k < suffix ==> FileName(pairName, side, k) in files
      invariant suffix <= |files|
      decreases |files| - suffix
    {
      suffix := suffix + 1;
      TakenNamesAreFew(pairName, side, files, suffix);
    }
    var name := FileName(pairName, side, suffix);
    assert FirstFree(files, pairName, side, name);
    match trouble
    case Nothing => return files[name := content], Written(name);
    case CannotCreate => return files, Failed(trouble);
    case CannotWrite => return files, Failed(trouble);
    case CannotRemove(remains) => return files[name := remains], Failed(trouble);
  }

  /** The files of a failed comparison: the actual result is written only after the expected
      one has been, and an expected file that was written stays when the actual one fails.
      A pair whose trimmed name is empty gets no files. */
  method WriteCompareFailureFiles(files: Directory, pairName: Bytes, expected: Bytes, actual: Bytes,
                                  expectedTrouble: Trouble, actualTrouble: Trouble)
    returns (after: Directory, result: BothWritten)
    ensures match result
      case NoPairName => pairName == [] && after == files
      case ExpectedFailed(trouble) =>
        && pairName != [] && trouble == expectedTrouble != Nothing
        && AttemptedFirstFree(files, pairName, Ascii("expected"), expected, trouble, after)
      case ActualFailed(expectedName, trouble) =>
        && pairName != [] && expectedTrouble.Nothing? && trouble == actualTrouble != Nothing
        && FirstFree(files, pairName, Ascii("expected"), expectedName)
        && AttemptedFirstFree(files[expectedName := expected], pairName, Ascii("actual"), actual, trouble, after)
      case BothWritten(expectedName, actualName) =>
        && pairName != [] && expectedTrouble.Nothing? && actualTrouble.Nothing?
        && FirstFree(files, pairName, Ascii("expected"), expectedName) && FirstFree(files, pairName, Ascii("actual"), actualName)
        && expectedName != actualName && after == files[expectedName := expected][actualName := actual]
    ensures forall name :: name in files ==> name in after && after[name] == files[name]
  {
    if pairName == [] {
      return files, NoPairName;
    }
    var first, second;
    after, first := WriteUniqueCompareFailureFile(files, pairName, Ascii("expected"), expected, expectedTrouble);
    if first.Failed? {
      return after, ExpectedFailed(first.trouble);
    }
    after, second := WriteUniqueCompareFailureFile(after, pairName, Ascii("actual"), actual, actualTrouble);
    if second.Failed? {
      return after, ActualFailed(first.name, second.trouble);
    }
    SidesDoNotClash(files, pairName, first.name, expected, second.name);
    result := BothWritten(first.name, second.name);
  }

  // The names of the two sides differ, so writing one does not use up a name of the other.
  lemma SidesDoNotClash(files: Directory, pairName: Bytes, expectedName: Bytes, expected: Bytes, actualName: Bytes)
    requires FirstFree(files, pairName, Ascii("expected"), expectedName)
    requires FirstFree(files[expectedName := expected], pairName, Ascii("actual"), actualName)
    ensures FirstFree(files, pairName, Ascii("actual"), actualName) && expectedName != actualName
  {
    hide FileName;
    var i: nat :| expectedName == FileName(pairName, Ascii("expected"), i);
    forall j: nat ensures FileName(pairName, Ascii("actual"), j) != expectedName {
      SideBegins(pairName, Ascii("expected"), i);
      SideBegins(pairName, Ascii("actual"), j);
    }
  }

  lemma SideBegins(pairName: Bytes, side: Bytes, suffix: nat)
    requires side != []
    ensures |FileName(pairName, side, suffix)| > |pairName| + 1
    ensures FileName(pairName, side, suffix)[|pairName| + 1] == side[0]
  {
    var stem, end := pairName + Ascii("-"), Middle(suffix) + Ascii(".txt");
    assert FileName(pairName, side, suffix) == stem + side + Middle(suffix) + Ascii(".txt");
    assert (stem + side)[|stem|] == side[0];
  }
}
