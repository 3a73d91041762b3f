// The string key that compareRowKey of dbHelper/compare_results.go gives a row: "N;"
// for a NULL cell and "V<byte length>:<text>;" for any other. Each token delimits
// itself, so the key can be read back into the cells whatever bytes their texts hold.
module RowKey {
  import opened Basics
  import opened Utf8

  // A normalized row; None is NULL.
  type Cells = seq<Option<Bytes>>

  const NULL_MARK: Byte := 78  // 'N'
  const TEXT_MARK: Byte := 86  // 'V'
  const COLON: Byte := 58      // ':'
  const SEMICOLON: Byte := 59  // ';'

  predicate IsDigit(b: Byte) {
    48 <= b <= 57
  }

  function Digit(d: int): (b: Byte)
    requires 0 <= d < 10
    ensures IsDigit(b) && b == 48 + d
  {
    48 + d
  }

  /** strconv.Itoa on a length. */
  function Itoa(n: nat): (s: Bytes)
    ensures s != [] && forall b :: b in s ==> IsDigit(b)
  {
    (if n < 10 then [] else Itoa(n / 10)) + [Digit(n % 10)]
  }

  function Atoi(s: Bytes): nat
    requires forall b :: b in s ==> IsDigit(b)
  {
    if s == [] then 0 else
      assert IsDigit(s[|s| - 1]);
      var last: int := s[|s| - 1];
      Atoi(s[..|s| - 1]) * 10 + (last - 48)
  }

  function DigitCount(s: Bytes): (n: nat)
    ensures n <= |s| && forall b :: b in s[..n] ==> IsDigit(b)
    ensures n < |s| ==> !IsDigit(s[n])
  {
    if s != [] && IsDigit(s[0]) then 1 + DigitCount(s[1..]) else 0
  }

  function EncodeCell(cell: Option<Bytes>): Bytes {
    match cell
    case None => [NULL_MARK, SEMICOLON]
    case Some(text) => [TEXT_MARK] + (Itoa(|text|) + ([COLON] + (text + [SEMICOLON])))
  }

  function EncodeRow(cells: Cells): Bytes {
    if cells == [] then [] else EncodeCell(cells[0]) + EncodeRow(cells[1..])
  }

  /** The cell at the front of a key, and the rest of the key. */
  function ReadCell(key: Bytes): (r: Option<(Option<Bytes>, Bytes)>)
    ensures r.Some? ==> |r.value.1| < |key|
  {
    if |key| < 2 then None
    else if key[0] == NULL_MARK && key[1] == SEMICOLON then Some((None, key[2..]))
    else if key[0] != TEXT_MARK then None
    else
      var d := DigitCount(key[1..]);
      var size := Atoi(key[1..][..d]);
      var body := key[1..][d..];
      if body != [] && body[0] == COLON && size < |body[1..]| && body[1..][size] == SEMICOLON
      then Some((Some(body[1..][..size]), body[1..][size + 1..])) else None
  }

  function ReadRow(key: Bytes): Option<Cells>
    decreases |key|
  {
    if key == [] then Some([])
    else match ReadCell(key)
      case None => None
      case Some((cell, rest)) =>
        match ReadRow(rest)
        case None => None
        case Some(cells) => Some([cell] + cells)
  }

  lemma {:induction false} AtoiItoa(n: nat)
    ensures Atoi(Itoa(n)) == n
  {
    var s := Itoa(n);
    if n < 10 {
    } else {
      assert s[..|s| - 1] == Itoa(n / 10);
      AtoiItoa(n / 10);
    }
  }

  // s is the decimal numeral of n, without leading zeros.
  ghost predicate IsNumeral(s: Bytes, n: nat) {
    && s != [] && (forall b :: b in s ==> 48 <= b <= 57)
    && (s[0] == 48 ==> |s| == 1)
    && n == Value(s, |s|)
  }

  // The value of the first k digits.
  ghost function Value(s: Bytes, k: nat): int
    requires k <= |s|
  {
    if k == 0 then 0 else
      var last: int := s[k - 1];
      Value(s, k - 1) * 10 + (last - 48)
  }

  lemma {:induction false} ValueOfPrefix(s: Bytes, t: Bytes, k: nat)
    requires k <= |s|
    ensures Value(s + t, k) == Value(s, k)
  {
    if k == 0 {
    } else {
      ValueOfPrefix(s, t, k - 1);
    }
  }

  lemma {:induction false} ItoaIsNumeral(n: nat)
    ensures IsNumeral(Itoa(n), n)
  {
    if n < 10 {
      assert Value(Itoa(n), 1) == Value(Itoa(n), 0) * 10 + n;
    } else {
      ItoaIsNumeral(n / 10);
      var front := Itoa(n / 10);
      assert Itoa(n) == front + [Digit(n % 10)];
      ValueOfPrefix(front, [Digit(n % 10)], |front|);
      LeadingDigit(n / 10);
    }
  }

  lemma {:induction false} LeadingDigit(n: nat)
    requires n > 0
    ensures Itoa(n)[0] != 48
  {
    if n < 10 {
    } else {
      LeadingDigit(n / 10);
    }
  }

  lemma {:induction false} DigitsEndAtMark(digits: Bytes, rest: Bytes)
    requires forall b :: b in digits ==> IsDigit(b)
    requires rest != [] && !IsDigit(rest[0])
    ensures DigitCount(digits + rest) == |digits|
  {
    if digits == [] {
      assert digits + rest == rest;
    } else {
      assert digits[0] in digits;
      assert (digits + rest)[1..] == digits[1..] + rest;
      DigitsEndAtMark(digits[1..], rest);
    }
  }

  lemma SplitAppend(a: Bytes, b: Bytes)
    ensures (a + b)[..|a|] == a && (a + b)[|a|..] == b
  {}

  lemma ReadTextToken(digits: Bytes, text: Bytes, rest: Bytes)
    requires forall b :: b in digits ==> IsDigit(b)
    requires Atoi(digits) == |text|
    ensures ReadCell([TEXT_MARK] + (digits + ([COLON] + (text + ([SEMICOLON] + rest)))))
         == Some((Some(text), rest))
  {
    var afterText := [SEMICOLON] + rest;
    var body := text + afterText;
    var afterDigits := [COLON] + body;
    var key := [TEXT_MARK] + (digits + afterDigits);
    SplitAppend([TEXT_MARK], digits + afterDigits);
    DigitsEndAtMark(digits, afterDigits);
    SplitAppend(digits, afterDigits);
    SplitAppend([COLON], body);
    SplitAppend(text, afterText);
    SplitAppend([SEMICOLON], rest);
    assert body[|text|] == afterText[0];
    assert body[|text| + 1..] == body[|text|..][1..];
  }

  lemma Regroup(digits: Bytes, text: Bytes, rest: Bytes)
    ensures [TEXT_MARK] + (digits + ([COLON] + (text + [SEMICOLON]))) + rest
         == [TEXT_MARK] + (digits + ([COLON] + (text + ([SEMICOLON] + rest))))
  {}

  /** Tokens are self-delimiting: a cell is read back whatever follows its token. */
  lemma ReadEncodedCell(cell: Option<Bytes>, rest: Bytes)
    ensures ReadCell(EncodeCell(cell) + rest) == Some((cell, rest))
  {
    match cell
    case None =>
      SplitAppend([NULL_MARK, SEMICOLON], rest);
    case Some(text) =>
      AtoiItoa(|text|);
      ReadTextToken(Itoa(|text|), text, rest);
      Regroup(Itoa(|text|), text, rest);
  }

  /** A key can be decoded back to the normalized row it was made from. */
  lemma {:induction false} ReadEncodedRow(cells: Cells)
    ensures ReadRow(EncodeRow(cells)) == Some(cells)
  {
    if cells == [] {
    } else {
      ReadEncodedCell(cells[0], EncodeRow(cells[1..]));
      ReadEncodedRow(cells[1..]);
      assert cells == [cells[0]] + cells[1..];
    }
  }

  lemma {:induction false} EncodeRowAppend(cells: Cells, more: Cells)
    ensures EncodeRow(cells + more) == EncodeRow(cells) + EncodeRow(more)
  {
    if cells == [] {
      assert cells + more == more;
    } else {
      assert (cells + more)[1..] == cells[1..] + more;
      EncodeRowAppend(cells[1..], more);
    }
  }

  // The token of a text: "V", its byte length in decimal, ":", the text and ";".
  ghost predicate IsTextToken(token: Bytes, text: Bytes) {
    exists digits :: IsNumeral(digits, |text|) && token == Ascii("V") + digits + Ascii(":") + text + Ascii(";")
  }

  /** The form of a key: the tokens of the cells one after the other, "N;" for NULL. */
  lemma KeyFormat(cells: Cells, more: Cells, text: Bytes)
    ensures EncodeRow([]) == [] && EncodeRow([None]) == Ascii("N;")
    ensures IsTextToken(EncodeRow([Some(text)]), text)
    ensures EncodeRow(cells + more) == EncodeRow(cells) + EncodeRow(more)
  {
    EncodeRowAppend(cells, more);
    var digits := Itoa(|text|);
    ItoaIsNumeral(|text|);
    assert EncodeRow([None]) == EncodeCell(None) + [];
    assert EncodeRow([Some(text)]) == EncodeCell(Some(text)) + [];
    TokenText(digits, text);
  }

  lemma TokenText(digits: Bytes, text: Bytes)
    ensures [TEXT_MARK] + (digits + ([COLON] + (text + [SEMICOLON]))) == Ascii("V") + digits + Ascii(":") + text + Ascii(";")
  {
    assert Ascii("V") == [TEXT_MARK] && Ascii(":") == [COLON] && Ascii(";") == [SEMICOLON];
    var tail := text + [SEMICOLON];
    assert [TEXT_MARK] + digits + [COLON] + tail == [TEXT_MARK] + digits + [COLON] + text + [SEMICOLON];
    assert [TEXT_MARK] + (digits + ([COLON] + tail)) == [TEXT_MARK] + digits + ([COLON] + tail);
    assert [TEXT_MARK] + digits + ([COLON] + tail) == [TEXT_MARK] + digits + [COLON] + tail;
  }

  /** Equal keys mean equal normalized rows, so NULL never equals the text "NULL". */
  lemma KeysAreFaithful(a: Cells, b: Cells)
    ensures EncodeRow(a) == EncodeRow(b) <==> a == b
  {
    ReadEncodedRow(a);
    ReadEncodedRow(b);
  }
}
