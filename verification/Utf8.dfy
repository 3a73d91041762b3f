// UTF-8 as Go's range-over-string and utf8.Valid read it: well-formed sequences are
// those of Table 3-7 of the Unicode Standard, and a byte that starts no well-formed
// sequence is read as one replacement character.
module Utf8 {
  import opened Basics

  const RUNE_LIMIT := 0x11_0000
  type Byte = b: int | 0 <= b < 256
  type Bytes = seq<Byte>

  predicate IsScalar(r: int) {
    0 <= r < 0xD800 || 0xE000 <= r < 0x11_0000
  }

  // A code point that is not a surrogate.
  type Scalar = r: int | 0 <= r < 0xD800 || 0xE000 <= r < 0x11_0000

  // The line ends, as bytes and as code points.
  const LF: Byte := 10
  const CR: Byte := 13
  const LINE_FEED: Scalar := LF
  const CARRIAGE_RETURN: Scalar := CR

  const REPLACEMENT: Scalar := 0xFFFD

  function EncodeRune(r: Scalar): (s: Bytes)
    ensures 1 <= |s| <= 4
    ensures if r < 128 then s == [r] else forall b :: b in s ==> 128 <= b
  {
    var low: int, mid: int, high: int := r / 64, r / 64 / 64, r / 64 / 64 / 64;
    if r < 0x80 then [r]
    else if r < 0x800 then [0xC0 + low, 0x80 + r % 64]
    else if r < 0x1_0000 then [0xE0 + mid, 0x80 + low % 64, 0x80 + r % 64]
    else [0xF0 + high, 0x80 + mid % 64, 0x80 + low % 64, 0x80 + r % 64]
  }

  function Encode(rs: seq<Scalar>): Bytes {
    if rs == [] then [] else EncodeRune(rs[0]) + Encode(rs[1..])
  }

  /** The bytes of an ASCII text. */
  function Ascii(s: string): (r: Bytes)
    requires forall i :: 0 <= i < |s| ==> s[i] as int < 128
    ensures |r| == |s| && forall i :: 0 <= i < |s| ==> r[i] == s[i] as int
  {
    seq(|s|, i requires 0 <= i < |s| => var b: Byte := s[i] as int; b)
  }

  predicate Within(s: Bytes, i: nat, lo: int, hi: int) {
    i < |s| && lo <= s[i] <= hi
  }

  predicate Tail(s: Bytes, i: nat) {
    Within(s, i, 0x80, 0xBF)
  }

  // The six bits carried by a continuation byte.
  function Payload(s: Bytes, i: nat): int
    requires i < |s|
  {
    var b: int := s[i];
    b - 0x80
  }

  // What the front of a string reads as, and how many bytes that takes.
  datatype Reading = Reading(rune: Scalar, size: nat, valid: bool)

  const MALFORMED := Reading(REPLACEMENT, 1, false)

  function ReadRune(s: Bytes): (r: Reading)
    requires s != []
    ensures 1 <= r.size <= |s|
  {
    var b: int := s[0];
    if b < 0x80 then Reading(b, 1, true)
    else if 0xC2 <= b <= 0xDF && Tail(s, 1) then
      Reading((b - 0xC0) * 64 + Payload(s, 1), 2, true)
    else if 0xE0 <= b <= 0xEF
         && Within(s, 1, if b == 0xE0 then 0xA0 else 0x80, if b == 0xED then 0x9F else 0xBF)
         && Tail(s, 2) then
      Reading(((b - 0xE0) * 64 + Payload(s, 1)) * 64 + Payload(s, 2), 3, true)
    else if 0xF0 <= b <= 0xF4
         && Within(s, 1, if b == 0xF0 then 0x90 else 0x80, if b == 0xF4 then 0x8F else 0xBF)
         && Tail(s, 2) && Tail(s, 3) then
      Reading((((b - 0xF0) * 64 + Payload(s, 1)) * 64 + Payload(s, 2)) * 64 + Payload(s, 3), 4, true)
    else MALFORMED
  }

  function Decode(s: Bytes): seq<Scalar> {
    if s == [] then [] else
      var front := ReadRune(s);
      [front.rune] + Decode(s[front.size..])
  }

  predicate Valid(s: Bytes) {
    s == [] || var front := ReadRune(s); front.valid && Valid(s[front.size..])
  }

  /** An encoded rune is read back, whatever follows it. */
  lemma {:induction false} ReadEncodedRune(r: Scalar, rest: Bytes)
    ensures ReadRune(EncodeRune(r) + rest) == Reading(r, |EncodeRune(r)|, true)
  {
    var s := EncodeRune(r) + rest;
    assert forall i :: 0 <= i < |EncodeRune(r)| ==> s[i] == EncodeRune(r)[i];
  }

  lemma EncodeReadThree(s: Bytes)
    requires |s| >= 3 && 0xE0 <= s[0] <= 0xEF && ReadRune(s).valid
    ensures s[..3] == EncodeRune(ReadRune(s).rune)
  {
    var b: int := s[0];
    var high := (b - 0xE0) * 64 + Payload(s, 1);
    SplitSix(b - 0xE0, Payload(s, 1));
    SplitSix(high, Payload(s, 2));
    assert ReadRune(s).rune == high * 64 + Payload(s, 2);
    assert s[..3] == [s[0], s[1], s[2]];
  }

  lemma EncodeReadFour(s: Bytes)
    requires |s| >= 4 && 0xF0 <= s[0] && ReadRune(s).valid
    ensures s[..4] == EncodeRune(ReadRune(s).rune)
  {
    var b: int := s[0];
    var mid := (b - 0xF0) * 64 + Payload(s, 1);
    var high := mid * 64 + Payload(s, 2);
    SplitSix(b - 0xF0, Payload(s, 1));
    SplitSix(mid, Payload(s, 2));
    SplitSix(high, Payload(s, 3));
    assert ReadRune(s).rune == high * 64 + Payload(s, 3);
    assert s[..4] == [s[0], s[1], s[2], s[3]];
  }

  /** A well-formed front is the encoding of the rune it reads as. */
  lemma {:induction false} EncodeReadRune(s: Bytes)
    requires s != [] && ReadRune(s).valid
    ensures s[..ReadRune(s).size] == EncodeRune(ReadRune(s).rune)
  {
    var b: int := s[0];
    if b < 0xE0 {
      if b >= 0x80 {
        SplitSix(b - 0xC0, Payload(s, 1));
      }
    } else if b < 0xF0 {
      EncodeReadThree(s);
    } else {
      EncodeReadFour(s);
    }
  }

  lemma SplitSix(high: int, low: int)
    requires 0 <= low < 64
    ensures (high * 64 + low) / 64 == high && (high * 64 + low) % 64 == low
  {}

  lemma {:induction false} DecodeEncode(rs: seq<Scalar>)
    ensures Decode(Encode(rs)) == rs && Valid(Encode(rs))
  {
    if rs == [] {
    } else {
      ReadEncodedRune(rs[0], Encode(rs[1..]));
      assert Encode(rs)[|EncodeRune(rs[0])|..] == Encode(rs[1..]);
      DecodeEncode(rs[1..]);
    }
  }

  lemma EncodeCons(r: Scalar, rs: seq<Scalar>)
    ensures Encode([r] + rs) == EncodeRune(r) + Encode(rs)
  {
    assert ([r] + rs)[1..] == rs;
  }

  lemma {:induction false} EncodeDecode(s: Bytes)
    requires Valid(s)
    ensures Encode(Decode(s)) == s
    decreases |s|
  {
    if s == [] {
    } else {
      var front := ReadRune(s);
      EncodeReadRune(s);
      EncodeDecode(s[front.size..]);
      EncodeCons(front.rune, Decode(s[front.size..]));
      Rejoin(s, front.size);
    }
  }

  lemma Rejoin(s: Bytes, n: nat)
    requires n <= |s|
    ensures s[..n] + s[n..] == s
  {}

  /** A string starts with an encoded rune, or its first byte is read as U+FFFD. */
  lemma DecodeFront(s: Bytes, r: Scalar)
    requires s != []
    ensures EncodeRune(r) <= s ==> Decode(s) == [r] + Decode(s[|EncodeRune(r)|..])
    ensures (forall x: Scalar :: !(EncodeRune(x) <= s)) ==> Decode(s) == [0xFFFD] + Decode(s[1..])
  {
    if EncodeRune(r) <= s {
      assert s == EncodeRune(r) + s[|EncodeRune(r)|..];
      ReadEncodedRune(r, s[|EncodeRune(r)|..]);
    }
    if ReadRune(s).valid {
      EncodeReadRune(s);
      assert EncodeRune(ReadRune(s).rune) <= s;
    }
  }

  /** Valid UTF-8 is what some runes are written as. */
  lemma ValidIff(s: Bytes)
    ensures Valid(s) <==> exists rs: seq<Scalar> :: Encode(rs) == s
  {
    if Valid(s) {
      EncodeDecode(s);
    }
    if rs: seq<Scalar> :| Encode(rs) == s {
      DecodeEncode(rs);
    }
  }

  // The bytes by which a rune is told from the next larger one.
  ghost predicate Below(a: Bytes, b: Bytes) {
    exists i :: 0 <= i < |a| && i < |b| && a[..i] == b[..i] && a[i] < b[i]
  }

  /** Encoded runes are in byte order when the runes are, and have the lengths of Table 3-6. */
  lemma EncodingKeepsOrder(a: Scalar, b: Scalar)
    requires a < b
    ensures Below(EncodeRune(a), EncodeRune(b))
    ensures |EncodeRune(b)| == if b < 0x80 then 1 else if b < 0x800 then 2 else if b < 0x1_0000 then 3 else 4
  {
    var s, t := EncodeRune(a), EncodeRune(b);
    var i := if s[0] != t[0] then 0 else if s[1] != t[1] then 1 else if s[2] != t[2] then 2 else 3;
    assert s[..i] == t[..i];
    assert s[i] < t[i];
  }

  lemma {:induction false} EncodeAppend(a: seq<Scalar>, b: seq<Scalar>)
    ensures Encode(a + b) == Encode(a) + Encode(b)
  {
    if a == [] {
      assert a + b == b;
    } else {
      assert (a + b)[1..] == a[1..] + b;
      EncodeAppend(a[1..], b);
    }
  }

  // ---------- Blank texts ----------

  /** White space as unicode.IsSpace has it. */
  predicate IsSpace(r: Scalar) {
    || 9 <= r <= 13 || r == 0x20 || r == 0x85 || r == 0xA0 || r == 0x1680 || 0x2000 <= r <= 0x200A
    || r == 0x2028 || r == 0x2029 || r == 0x202F || r == 0x205F || r == 0x3000
  }

  /** A text has no other runes than white space. */
  ghost predicate IsBlank(name: Bytes) {
    forall r :: r in Decode(name) ==> IsSpace(r)
  }

  /** The first half of strings.TrimSpace, which alone decides whether anything is left. */
  function TrimLeft(name: Bytes): (rest: Bytes)
    ensures rest == [] <==> IsBlank(name)
    decreases |name|
  {
    if name == [] || !IsSpace(ReadRune(name).rune) then name else TrimLeft(name[ReadRune(name).size..])
  }
}
