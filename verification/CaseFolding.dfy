// normalizeCompareText of dbHelper/compare_results.go. The Unicode tables behind
// unicode.SimpleFold (simple case folding, section 3.13 of the Unicode Standard) are
// not part of this model: any partition of the scalars into fold classes is allowed.
module CaseFolding {
  import opened Basics
  import opened Utf8

  // Two runes are fold-equivalent when they carry the same class label.
  type FoldClasses = Scalar -> int

  /** The smallest rune of class c that is at least from. */
  function NextInClass(classes: FoldClasses, c: int, from: nat): (r: Option<Scalar>)
    requires from <= RUNE_LIMIT
    ensures r.Some? ==> from <= r.value && classes(r.value) == c
    ensures r.Some? ==> forall x: Scalar :: from <= x < r.value ==> classes(x) != c
    ensures r.None? ==> forall x: Scalar :: from <= x ==> classes(x) != c
    decreases RUNE_LIMIT - from
  {
    if from == RUNE_LIMIT then None
    else if IsScalar(from) && classes(from) == c then Some(from)
    else NextInClass(classes, c, from + 1)
  }

  function Smallest(classes: FoldClasses, r: Scalar): (m: Scalar)
    ensures m <= r && classes(m) == classes(r)
    ensures forall x: Scalar :: classes(x) == classes(r) ==> m <= x
  {
    NextInClass(classes, classes(r), 0).value
  }

  /** unicode.SimpleFold: the next larger rune of the class, or else its smallest. */
  function SimpleFold(classes: FoldClasses, r: Scalar): (next: Scalar)
    ensures classes(next) == classes(r)
    ensures next > r ==> forall x: Scalar :: r < x < next ==> classes(x) != classes(r)
    ensures next <= r ==> forall x: Scalar :: classes(x) == classes(r) ==> next <= x <= r
  {
    match NextInClass(classes, classes(r), r + 1)
    case Some(larger) => larger
    case None => Smallest(classes, r)
  }

  /** The inner loop: one tour of the fold cycle ends at the smallest member. */
  method CanonicalRune(classes: FoldClasses, current: Scalar) returns (canonical: Scalar)
    ensures canonical == Smallest(classes, current)
  {
    var smallest := Smallest(classes, current);
    canonical := current;
    var folded: Scalar := SimpleFold(classes, current);
    while folded != current
      invariant classes(folded) == classes(current)
      invariant folded > current || folded == smallest ==> canonical == current
      invariant smallest < folded <= current ==> canonical == smallest
      decreases folded > current, RUNE_LIMIT - folded
    {
      if folded < canonical {
        canonical := folded;
      }
      folded := SimpleFold(classes, folded);
    }
  }

  function CanonicalText(classes: FoldClasses, rs: seq<Scalar>): seq<Scalar> {
    Map((r: Scalar) => Smallest(classes, r), rs)
  }

  /** What normalizeCompareText returns. */
  function Normalize(caseSensitive: bool, classes: FoldClasses, text: Bytes): Bytes {
    if caseSensitive then text else Folded(classes, text)
  }

  function Folded(classes: FoldClasses, text: Bytes): Bytes {
    Encode(CanonicalText(classes, Decode(text)))
  }

  lemma FoldFront(classes: FoldClasses, text: Bytes)
    requires text != []
    ensures var front := ReadRune(text);
      Folded(classes, text) == EncodeRune(Smallest(classes, front.rune)) + Folded(classes, text[front.size..])
  {
    var rest := Decode(text[ReadRune(text).size..]);
    assert CanonicalText(classes, Decode(text))[1..] == CanonicalText(classes, rest);
  }

  method NormalizeCompareText(caseSensitive: bool, classes: FoldClasses, value: Bytes) returns (r: Bytes)
    ensures r == Normalize(caseSensitive, classes, value)
  {
    if caseSensitive {
      return value;
    }
    r := [];
    var at := 0;
    while at < |value|
      invariant at <= |value|
      invariant r + Folded(classes, value[at..]) == Folded(classes, value)
      decreases |value| - at
    {
      var front := ReadRune(value[at..]);
      var canonical := CanonicalRune(classes, front.rune);
      FoldFront(classes, value[at..]);
      assert value[at..][front.size..] == value[at + front.size..];
      r := r + EncodeRune(canonical);
      at := at + front.size;
    }
  }

  /** Equal length and pairwise fold-equivalent runes. */
  ghost predicate FoldEquivalent(classes: FoldClasses, a: seq<Scalar>, b: seq<Scalar>) {
    |a| == |b| && forall i :: 0 <= i < |a| ==> classes(a[i]) == classes(b[i])
  }

  /** The normal form of a text is valid UTF-8 and holds, rune by rune, the smallest rune that
      is fold-equivalent; where case matters a text is its own normal form. */
  lemma NormalFormIsSmallest(classes: FoldClasses, text: Bytes, i: nat)
    requires i < |Decode(text)|
    ensures Normalize(true, classes, text) == text
    ensures var n := Normalize(false, classes, text);
      && Valid(n) && |Decode(n)| == |Decode(text)|
      && classes(Decode(n)[i]) == classes(Decode(text)[i])
      && forall x: Scalar :: classes(x) == classes(Decode(text)[i]) ==> Decode(n)[i] <= x
  {
    DecodeEncode(CanonicalText(classes, Decode(text)));
  }

  /** Two texts normalize equally exactly when their runes are fold-equivalent one by one. */
  lemma NormalizeIsFoldEquivalence(classes: FoldClasses, a: Bytes, b: Bytes)
    ensures Normalize(false, classes, a) == Normalize(false, classes, b)
       <==> FoldEquivalent(classes, Decode(a), Decode(b))
  {
    var ca, cb := CanonicalText(classes, Decode(a)), CanonicalText(classes, Decode(b));
    DecodeEncode(ca);
    DecodeEncode(cb);
    if ca == cb {
      forall i | 0 <= i < |ca| ensures classes(Decode(a)[i]) == classes(Decode(b)[i]) {
        assert ca[i] == cb[i];
      }
    }
    if FoldEquivalent(classes, Decode(a), Decode(b)) {
      assert ca == cb;
    }
  }

  /** Normalized text is its own normal form. */
  lemma NormalizeIsIdempotent(caseSensitive: bool, classes: FoldClasses, a: Bytes)
    ensures var n := Normalize(caseSensitive, classes, a); Normalize(caseSensitive, classes, n) == n
  {
    if !caseSensitive {
      var c := CanonicalText(classes, Decode(a));
      DecodeEncode(c);
      assert CanonicalText(classes, c) == c;
    }
  }
}
