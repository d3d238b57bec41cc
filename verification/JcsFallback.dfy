/**
  What the raw-byte fallback of the member order does to it: exactly which malformed keys have a place
  among the valid ones and among each other.
 */
module JcsFallback {
  import opened Options
  import opened Lexicographic
  import opened Utf
  import opened JcsOrder

  /** The comparison of two whole keys. */
  ghost predicate Less(left: string, right: string) {
    CompareFrom(left, 0, 0, right, 0, 0)
  }

  // ---- the comparison, scalar by scalar

  /** Two different scalars, by the units that stand for them. */
  predicate UnitsBefore(a: int, c: int)
    requires IsScalar(a) && IsScalar(c)
  {
    LexLess(UnitsOf(a), UnitsOf(c))
  }

  /** The first two scalars that differ decide; where one side does not decode, the bytes from there on. */
  predicate Compared(x: string, y: string)
    decreases |x|
  {
    if x == [] || y == [] then x == [] && y != []
    else if Decode(x).None? || Decode(y).None? then LexLess(Bytes(x), Bytes(y))
    else
      var d, e := Decode(x).value, Decode(y).value;
      if d.codePoint != e.codePoint then UnitsBefore(d.codePoint, e.codePoint)
      else Compared(x[d.width..], y[e.width..])
  }

  lemma RawBehind(p: string, x: string, y: string)
    ensures LexLess(Bytes(p + x), Bytes(p + y)) <==> LexLess(Bytes(x), Bytes(y))
  {
    BytesOfPrefix(p, x);
    BytesOfPrefix(p, y);
    LexCancel(Bytes(p), Bytes(x), Bytes(y));
  }

  lemma TailCompared(x: string, y: string, n: nat)
    requires n <= |x| && n <= |y| && x[..n] == y[..n]
    ensures LexLess(Bytes(x), Bytes(y)) <==> LexLess(Bytes(x[n..]), Bytes(y[n..]))
  {
    assert x == x[..n] + x[n..] && y == y[..n] + y[n..];
    RawBehind(x[..n], x[n..], y[n..]);
  }

  lemma LexHead(a: int, x: seq<int>, c: int, y: seq<int>)
    ensures LexLess([a] + x, [c] + y) <==> a < c || (a == c && LexLess(x, y))
  {
    assert ([a] + x)[1..] == x && ([c] + y)[1..] == y;
  }

  /** The first unit decides, or else both have a second one that does. */
  lemma UnitsDecide(a: int, c: int)
    requires IsScalar(a) && IsScalar(c) && a != c
    ensures var l, r := UnitsOf(a), UnitsOf(c);
      if l[0] != r[0] then UnitsBefore(a, c) <==> l[0] < r[0]
      else |l| == |r| == 2 && l[1] != r[1] && l[1] != 0 && r[1] != 0 && (UnitsBefore(a, c) <==> l[1] < r[1])
  {
    var l, r := UnitsOf(a), UnitsOf(c);
    if l[0] == r[0] {
      LexHead(l[0], [l[1]], r[0], [r[1]]);
      LexHead(l[1], [], r[1], []);
      assert l == [l[0]] + [l[1]] && r == [r[0]] + [r[1]] && [l[1]] + [] == [l[1]] && [r[1]] + [] == [r[1]];
    } else {
      assert l == [l[0]] + l[1..] && r == [r[0]] + r[1..];
      LexHead(l[0], l[1..], r[0], r[1..]);
    }
  }

  lemma NextUnitIs(text: string, n: nat, d: Decoded)
    requires n <= |text| && Decode(text[n..]) == Some(d)
    ensures var units := UnitsOf(d.codePoint);
      NextUnit(text, n, 0) == Taken(units[0], n + d.width, if |units| == 2 then units[1] else 0)
  {
  }

  lemma FirstUnits(left: string, right: string, n: nat, l: Taken, r: Taken)
    requires n < |left| && n < |right| && Decode(left[n..]).Some? && Decode(right[n..]).Some?
    requires NextUnit(left, n, 0) == l && NextUnit(right, n, 0) == r
    ensures CompareFrom(left, n, 0, right, n, 0) ==
            if l.unit != r.unit then l.unit < r.unit
            else CompareFrom(left, l.offset, l.pending, right, r.offset, r.pending)
  {
  }

  lemma SecondUnits(left: string, lo: nat, lp: int, right: string, ro: nat, rp: int)
    requires Cursor(left, lo, lp) && Cursor(right, ro, rp) && lp != 0 && rp != 0
    ensures CompareFrom(left, lo, lp, right, ro, rp) ==
            if lp != rp then lp < rp else CompareFrom(left, lo, 0, right, ro, 0)
  {
  }

  /** Two scalars at the heads, taken unit by unit. */
  lemma HeadsCompared(left: string, right: string, n: nat, d: Decoded, e: Decoded)
    requires n < |left| && n < |right| && Decode(left[n..]) == Some(d) && Decode(right[n..]) == Some(e)
    ensures CompareFrom(left, n, 0, right, n, 0) ==
            if d.codePoint != e.codePoint then UnitsBefore(d.codePoint, e.codePoint)
            else CompareFrom(left, n + d.width, 0, right, n + e.width, 0)
  {
    var l, r := NextUnit(left, n, 0), NextUnit(right, n, 0);
    NextUnitIs(left, n, d);
    NextUnitIs(right, n, e);
    FirstUnits(left, right, n, l, r);
    if d.codePoint != e.codePoint {
      UnitsDecide(d.codePoint, e.codePoint);
    }
    if l.pending != 0 && r.pending != 0 {
      SecondUnits(left, l.offset, l.pending, right, r.offset, r.pending);
    }
  }

  lemma SameHead(x: string, y: string, d: Decoded, e: Decoded)
    requires Decode(x) == Some(d) && Decode(y) == Some(e) && d.codePoint == e.codePoint
    ensures d == e && x[..d.width] == y[..d.width] == Encode(d.codePoint)
  {
    EncodeDecode(x);
    EncodeDecode(y);
  }

  lemma {:induction false} CompareFollowsScalars(left: string, right: string, n: nat)
    requires n <= |left| && n <= |right| && left[..n] == right[..n]
    ensures CompareFrom(left, n, 0, right, n, 0) == Compared(left[n..], right[n..])
    decreases |left| - n
  {
    var x, y := left[n..], right[n..];
    if x != [] && y != [] {
      if Decode(x).None? || Decode(y).None? {
        TailCompared(left, right, n);
      } else {
        var d, e := Decode(x).value, Decode(y).value;
        HeadsCompared(left, right, n, d, e);
        if d.codePoint == e.codePoint {
          SameHead(x, y, d, e);
          NextPlace(left, n, d.width);
          NextPlace(right, n, d.width);
          CompareFollowsScalars(left, right, n + d.width);
        }
      }
    }
  }

  lemma NextPlace(text: string, n: nat, width: nat)
    requires n + width <= |text|
    ensures text[n..][width..] == text[n + width..] && text[..n + width] == text[..n] + text[n..][..width]
  {
  }

  /** For any two texts, valid or not, the loop over units is the comparison by scalars. */
  lemma ComparesByScalars(left: string, right: string)
    ensures Less(left, right) <==> Compared(left, right)
  {
    assert left[0..] == left && right[0..] == right;
    CompareFollowsScalars(left, right, 0);
  }

  // ---- the bytes of encodings are ordered as the scalars

  lemma EncodingsAscend(a: int, c: int, x: seq<int>, y: seq<int>)
    requires IsScalar(a) && IsScalar(c) && a < c
    ensures LexLess(Bytes(Encode(a)) + x, Bytes(Encode(c)) + y)
  {
    var l, r := Bytes(Encode(a)) + x, Bytes(Encode(c)) + y;
    var i := FirstDifference(a, c);
    assert forall j | 0 <= j <= i :: l[j] == Encode(a)[j] as int && r[j] == Encode(c)[j] as int;
    LexAt(l, r, i);
  }

  lemma FirstDigit(a0: int, a1: int, a2: int, a3: int, c0: int, c1: int, c2: int, c3: int)
    requires 0 <= a1 < 64 && 0 <= a2 < 64 && 0 <= a3 < 64 && 0 <= c1 < 64 && 0 <= c2 < 64 && 0 <= c3 < 64
    requires a0 * 262144 + a1 * 4096 + a2 * 64 + a3 < c0 * 262144 + c1 * 4096 + c2 * 64 + c3
    ensures a0 < c0 || (a0 == c0 && (a1 < c1 || (a1 == c1 && (a2 < c2 || (a2 == c2 && a3 < c3)))))
  {
  }

  lemma FirstDifferenceOfFour(a: int, c: int) returns (i: nat)
    requires 0x1_0000 <= a < c < 0x11_0000
    ensures i < 4 && Encode(a)[i] < Encode(c)[i] && forall j | 0 <= j < i :: Encode(a)[j] == Encode(c)[j]
  {
    Digits(a);
    Digits(c);
    FirstDigit(a / 262144, a / 4096 % 64, a / 64 % 64, a % 64, c / 262144, c / 4096 % 64, c / 64 % 64, c % 64);
    i := if a / 262144 < c / 262144 then 0 else if a / 4096 % 64 < c / 4096 % 64 then 1
         else if a / 64 % 64 < c / 64 % 64 then 2 else 3;
  }

  lemma FirstDifferenceOfThree(a: int, c: int) returns (i: nat)
    requires IsScalar(a) && IsScalar(c) && 0x800 <= a < c < 0x1_0000
    ensures i < 3 && Encode(a)[i] < Encode(c)[i] && forall j | 0 <= j < i :: Encode(a)[j] == Encode(c)[j]
  {
    Digits(a);
    Digits(c);
    FirstDigit(0, a / 4096, a / 64 % 64, a % 64, 0, c / 4096, c / 64 % 64, c % 64);
    i := if a / 4096 < c / 4096 then 0 else if a / 64 % 64 < c / 64 % 64 then 1 else 2;
  }

  lemma FirstDifference(a: int, c: int) returns (i: nat)
    requires IsScalar(a) && IsScalar(c) && a < c
    ensures i < |Encode(a)| && i < |Encode(c)| && Encode(a)[i] < Encode(c)[i]
    ensures forall j | 0 <= j < i :: Encode(a)[j] == Encode(c)[j]
  {
    if a >= 0x1_0000 {
      i := FirstDifferenceOfFour(a, c);
    } else if a >= 0x800 && c < 0x1_0000 {
      i := FirstDifferenceOfThree(a, c);
    } else if 0x80 <= a && c < 0x800 && a / 64 == c / 64 {
      i := 1;
    } else {
      i := 0;
    }
  }

  // ---- which malformed keys break the order

  const FIRST_OF_THREE: string := Encode(0xE000)
  const LAST_OF_FOUR: string := Encode(0x10_FFFF)

  /** The undecodable rest lies strictly between the encodings of U+E000 and U+10FFFF as bytes. */
  predicate BreaksOrder(r: string) {
    LexLess(Bytes(FIRST_OF_THREE), Bytes(r)) && LexLess(Bytes(r), Bytes(LAST_OF_FOUR))
  }

  lemma UndecodableHasNoHead(r: string, a: int)
    requires Decode(r).None? && IsScalar(a)
    ensures !(Bytes(Encode(a)) <= Bytes(r))
  {
    if Bytes(Encode(a)) <= Bytes(r) {
      var n := |Encode(a)|;
      forall i | 0 <= i < n ensures Encode(a)[i] == r[i] {
        assert Bytes(Encode(a))[i] == Bytes(r)[i];
      }
      assert r == Encode(a) + r[n..];
      DecodeEncode(a, r[n..]);
    }
  }

  // ---- the undecodable rest of a key

  /** What is left of a text from the first place where it does not decode. */
  function Rest(text: string): (r: string)
    ensures r == [] || Decode(r).None?
    decreases |text|
  {
    if text == [] || Decode(text).None? then text else Rest(text[Decode(text).value.width..])
  }

  lemma ScalarThenValid(cp: int, q: string)
    requires IsScalar(cp) && IsUtf8(q)
    ensures IsUtf8(Encode(cp) + q)
  {
    DecodeEncode(cp, q);
    assert (Encode(cp) + q)[|Encode(cp)|..] == q;
  }

  lemma {:induction false} RestSplits(text: string) returns (p: string)
    ensures IsUtf8(p) && text == p + Rest(text)
    decreases |text|
  {
    if text == [] || Decode(text).None? {
      p := [];
    } else {
      var d := Decode(text).value;
      var q := RestSplits(text[d.width..]);
      EncodeDecode(text);
      p := Encode(d.codePoint) + q;
      ScalarThenValid(d.codePoint, q);
      InFront(text, d.width, q, Rest(text[d.width..]));
    }
  }

  lemma InFront(text: string, n: nat, q: string, r: string)
    requires n <= |text| && text[n..] == q + r
    ensures text == text[..n] + q + r
  {
    assert text == text[..n] + text[n..];
  }

  lemma {:induction false} RestOfValid(text: string)
    ensures IsUtf8(text) <==> Rest(text) == []
    decreases |text|
  {
    if text != [] && Decode(text).Some? {
      RestOfValid(text[Decode(text).value.width..]);
    }
  }

  /** No undecodable rest, or one outside the gap. */
  predicate HasPlace(key: string) {
    !BreaksOrder(Rest(key))
  }

  // ---- every key with a place, as a number string in the same order

  /** Scalars below the surrogates, then those of two units, then those above the surrogates. */
  function Class(cp: int): int {
    if cp < 0xE000 then 0 else if cp >= 0x1_0000 then 1 else 2
  }

  /** An undecodable rest below the gap is among the first class, one above it behind them all. */
  function RestClass(r: string): int {
    if LexLess(Bytes(r), Bytes(FIRST_OF_THREE)) then 0 else 3
  }

  function Code(key: string): seq<int>
    decreases |key|
  {
    if key == [] then []
    else if Decode(key).None? then [RestClass(key)] + Bytes(key)
    else
      var d := Decode(key).value;
      [Class(d.codePoint)] + (Bytes(Encode(d.codePoint)) + Code(key[d.width..]))
  }

  /** Different scalars: the classes decide, and within a class the bytes. */
  lemma ScalarCodes(a: int, c: int, x: seq<int>, y: seq<int>)
    requires IsScalar(a) && IsScalar(c) && a != c
    ensures UnitsBefore(a, c) <==> LexLess([Class(a)] + (Bytes(Encode(a)) + x), [Class(c)] + (Bytes(Encode(c)) + y))
  {
    LexHead(Class(a), Bytes(Encode(a)) + x, Class(c), Bytes(Encode(c)) + y);
    UnitsByClass(a, c);
    if a < c {
      EncodingsAscend(a, c, x, y);
    } else {
      EncodingsAscend(c, a, y, x);
      LexAsymmetric(Bytes(Encode(c)) + y, Bytes(Encode(a)) + x);
    }
  }

  lemma UnitsByClass(a: int, c: int)
    requires IsScalar(a) && IsScalar(c) && a != c
    ensures UnitsBefore(a, c) <==> Class(a) < Class(c) || (Class(a) == Class(c) && a < c)
  {
    UnitsDecide(a, c);
  }

  lemma LexAsymmetric(a: seq<int>, b: seq<int>)
    requires LexLess(a, b)
    ensures !LexLess(b, a)
  {
    if LexLess(b, a) {
      LexTransitive(a, b, a);
      LexIrreflexive(a);
    }
  }

  /** Beside a string that does not begin with it, a string and its extensions stand alike. */
  lemma ExtensionStandsAlike(r: seq<int>, q: seq<int>, w: seq<int>)
    requires q <= w && !(q <= r)
    ensures LexLess(r, w) <==> LexLess(r, q)
  {
    if LexLess(r, w) {
      LexBelowExtension(r, q, w);
    } else if LexLess(r, q) {
      LexOfPrefix(q, w);
      if q != w {
        LexTransitive(r, q, w);
      }
    }
  }

  lemma LexEither(a: seq<int>, b: seq<int>)
    requires a != b
    ensures LexLess(a, b) <==> !LexLess(b, a)
  {
    LexTotal(a, b);
    if LexLess(a, b) {
      LexAsymmetric(a, b);
    }
  }

  /** An undecodable rest against one scalar's bytes. */
  lemma RestBesideScalar(r: string, c: int)
    requires Decode(r).None? && !BreaksOrder(r) && IsScalar(c)
    ensures LexLess(Bytes(r), Bytes(Encode(c)))
            <==> RestClass(r) < Class(c) || (RestClass(r) == Class(c) && LexLess(Bytes(r), Bytes(Encode(c))))
  {
    var first, last, bytes := Bytes(FIRST_OF_THREE), Bytes(LAST_OF_FOUR), Bytes(Encode(c));
    if LexLess(Bytes(r), first) {
      if c > 0xE000 {
        ScalarsAscend(0xE000, c);
        LexTransitive(Bytes(r), first, bytes);
      }
    } else {
      UndecodableHasNoHead(r, 0xE000);
      UndecodableHasNoHead(r, 0x10_FFFF);
      LexEither(first, Bytes(r));
      LexEither(last, Bytes(r));
      if c < 0x10_FFFF {
        ScalarsAscend(c, 0x10_FFFF);
        LexTransitive(bytes, last, Bytes(r));
      }
      LexAsymmetric(bytes, Bytes(r));
    }
  }

  lemma ScalarsAscend(a: int, c: int)
    requires IsScalar(a) && IsScalar(c) && a < c
    ensures LexLess(Bytes(Encode(a)), Bytes(Encode(c)))
  {
    EncodingsAscend(a, c, [], []);
    assert Bytes(Encode(a)) + [] == Bytes(Encode(a)) && Bytes(Encode(c)) + [] == Bytes(Encode(c));
  }

  /** An undecodable rest against a text whose head decodes. */
  lemma RestCodes(r: string, c: int, t: seq<int>, u: seq<int>)
    requires Decode(r).None? && !BreaksOrder(r) && IsScalar(c)
    ensures LexLess(Bytes(r), Bytes(Encode(c)) + t)
            <==> LexLess([RestClass(r)] + Bytes(r), [Class(c)] + (Bytes(Encode(c)) + u))
    ensures LexLess(Bytes(Encode(c)) + t, Bytes(r))
            <==> LexLess([Class(c)] + (Bytes(Encode(c)) + u), [RestClass(r)] + Bytes(r))
  {
    var bytes := Bytes(Encode(c));
    UndecodableHasNoHead(r, c);
    ExtensionStandsAlike(Bytes(r), bytes, bytes + t);
    ExtensionStandsAlike(Bytes(r), bytes, bytes + u);
    RestBesideScalar(r, c);
    LexHead(RestClass(r), Bytes(r), Class(c), bytes + u);
    LexEither(Bytes(r), bytes + t);
    var left, right := [RestClass(r)] + Bytes(r), [Class(c)] + (bytes + u);
    assert left[1..] == Bytes(r) && right[1..] == bytes + u;
    LexEither(left, right);
  }

  lemma RestsCompared(r: string, q: string)
    requires Decode(r).None? && Decode(q).None? && !BreaksOrder(r) && !BreaksOrder(q)
    ensures LexLess(Bytes(r), Bytes(q)) <==> LexLess([RestClass(r)] + Bytes(r), [RestClass(q)] + Bytes(q))
  {
    LexHead(RestClass(r), Bytes(r), RestClass(q), Bytes(q));
    var first := Bytes(FIRST_OF_THREE);
    if RestClass(r) < RestClass(q) {
      UndecodableHasNoHead(q, 0xE000);
      LexEither(first, Bytes(q));
      LexTransitive(Bytes(r), first, Bytes(q));
    } else if RestClass(q) < RestClass(r) {
      UndecodableHasNoHead(r, 0xE000);
      LexEither(first, Bytes(r));
      LexTransitive(Bytes(q), first, Bytes(r));
      LexAsymmetric(Bytes(q), Bytes(r));
    }
  }

  lemma BytesOfHead(x: string, d: Decoded)
    requires Decode(x) == Some(d)
    ensures Bytes(x) == Bytes(Encode(d.codePoint)) + Bytes(x[d.width..])
  {
    EncodeDecode(x);
    assert x == Encode(d.codePoint) + x[d.width..];
    BytesOfPrefix(Encode(d.codePoint), x[d.width..]);
  }

  /** Keys with a place compare as their codes do. */
  lemma {:induction false} CodesCompare(x: string, y: string)
    requires HasPlace(x) && HasPlace(y)
    ensures Compared(x, y) <==> LexLess(Code(x), Code(y))
    decreases |x|, 1
  {
    if x != [] && y != [] {
      if Decode(x).None? && Decode(y).None? {
        RestsCompared(x, y);
      } else if Decode(x).None? {
        var e := Decode(y).value;
        BytesOfHead(y, e);
        RestCodes(x, e.codePoint, Bytes(y[e.width..]), Code(y[e.width..]));
      } else if Decode(y).None? {
        var d := Decode(x).value;
        BytesOfHead(x, d);
        RestCodes(y, d.codePoint, Bytes(x[d.width..]), Code(x[d.width..]));
      } else {
        HeadCodesCompare(x, y, Decode(x).value, Decode(y).value);
      }
    }
  }

  lemma {:induction false} HeadCodesCompare(x: string, y: string, d: Decoded, e: Decoded)
    requires HasPlace(x) && HasPlace(y) && Decode(x) == Some(d) && Decode(y) == Some(e)
    ensures Compared(x, y) <==> LexLess(Code(x), Code(y))
    decreases |x|, 0
  {
    var restX, restY := x[d.width..], y[e.width..];
    if d.codePoint != e.codePoint {
      ScalarCodes(d.codePoint, e.codePoint, Code(restX), Code(restY));
    } else {
      var bytes := Bytes(Encode(d.codePoint));
      CodesCompare(restX, restY);
      LexHead(Class(d.codePoint), bytes + Code(restX), Class(d.codePoint), bytes + Code(restY));
      LexCancel(bytes, Code(restX), Code(restY));
    }
  }

  /** Two encodings that begin one byte string are one encoding. */
  lemma EncodingsArePrefixFree(a: int, c: int, x: seq<int>, y: seq<int>)
    requires IsScalar(a) && IsScalar(c) && Bytes(Encode(a)) + x == Bytes(Encode(c)) + y
    ensures a == c && x == y
  {
    var all := Bytes(Encode(a)) + x;
    if a < c {
      EncodingsAscend(a, c, x, y);
      LexIrreflexive(all);
    } else if c < a {
      EncodingsAscend(c, a, y, x);
      LexIrreflexive(all);
    } else {
      assert x == all[|Encode(a)|..] && y == all[|Encode(c)|..];
    }
  }

  lemma RestIsNoScalar(r: string, k: int, c: int, t: seq<int>)
    requires Decode(r).None? && IsScalar(c)
    ensures [k] + Bytes(r) != [Class(c)] + (Bytes(Encode(c)) + t)
  {
    UndecodableHasNoHead(r, c);
    var left, right := [k] + Bytes(r), [Class(c)] + (Bytes(Encode(c)) + t);
    assert left[1..] == Bytes(r) && right[1..] == Bytes(Encode(c)) + t;
  }

  /** A key is determined by its code. */
  lemma {:induction false} CodeIsInjective(x: string, y: string)
    requires Code(x) == Code(y)
    ensures x == y
    decreases |x|
  {
    if x == [] || y == [] {
    } else if Decode(x).None? && Decode(y).None? {
      assert Code(x)[1..] == Bytes(x) && Code(y)[1..] == Bytes(y);
      BytesAreInjective(x, y);
    } else if Decode(x).None? {
      var e := Decode(y).value;
      RestIsNoScalar(x, RestClass(x), e.codePoint, Code(y[e.width..]));
    } else if Decode(y).None? {
      var d := Decode(x).value;
      RestIsNoScalar(y, RestClass(y), d.codePoint, Code(x[d.width..]));
    } else {
      var d, e := Decode(x).value, Decode(y).value;
      var restX, restY := x[d.width..], y[e.width..];
      assert Code(x)[1..] == Bytes(Encode(d.codePoint)) + Code(restX);
      assert Code(y)[1..] == Bytes(Encode(e.codePoint)) + Code(restY);
      EncodingsArePrefixFree(d.codePoint, e.codePoint, Code(restX), Code(restY));
      CodeIsInjective(restX, restY);
      SameHead(x, y, d, e);
      SameHalves(x, d.width, y, d.width);
    }
  }

  // ---- the order of keys

  /** The keys of a set, which may be infinite, and every valid key. */
  ghost predicate IsKey(key: string, extra: iset<string>) {
    IsUtf8(key) || key in extra
  }

  ghost predicate Chain(x: string, y: string, z: string, extra: iset<string>) {
    IsKey(x, extra) && IsKey(y, extra) && IsKey(z, extra) && Less(x, y) && Less(y, z)
  }

  /** The valid keys and those of the set are strictly totally ordered by the comparison. */
  ghost predicate OrderedWith(extra: iset<string>) {
    && (forall x | IsKey(x, extra) :: !Less(x, x))
    && (forall x, y | IsKey(x, extra) && IsKey(y, extra) && x != y :: Less(x, y) || Less(y, x))
    && (forall x, y, z | Chain(x, y, z, extra) :: Less(x, z))
  }

  lemma LessIsByCode(x: string, y: string)
    requires HasPlace(x) && HasPlace(y)
    ensures Less(x, y) <==> LexLess(Code(x), Code(y))
  {
    ComparesByScalars(x, y);
    CodesCompare(x, y);
  }

  lemma ValidHasPlace(key: string)
    requires IsUtf8(key)
    ensures HasPlace(key)
  {
    RestOfValid(key);
  }

  lemma PlacesMakeAnOrder(extra: iset<string>)
    requires forall key | key in extra :: HasPlace(key)
    ensures OrderedWith(extra)
  {
    forall x | IsKey(x, extra) ensures HasPlace(x) {
      if IsUtf8(x) { ValidHasPlace(x); }
    }
    forall x | IsKey(x, extra) ensures !Less(x, x) {
      LessIsByCode(x, x);
      LexIrreflexive(Code(x));
    }
    forall x, y | IsKey(x, extra) && IsKey(y, extra) && x != y ensures Less(x, y) || Less(y, x) {
      LessIsByCode(x, y);
      LessIsByCode(y, x);
      LexTotal(Code(x), Code(y));
      if Code(x) == Code(y) { CodeIsInjective(x, y); }
    }
    forall x, y, z | Chain(x, y, z, extra) ensures Less(x, z) {
      LessIsByCode(x, y);
      LessIsByCode(y, z);
      LessIsByCode(x, z);
      LexTransitive(Code(x), Code(y), Code(z));
    }
  }

  /** A valid beginning in common changes nothing. */
  lemma {:induction false} ComparedBehind(p: string, x: string, y: string)
    requires IsUtf8(p)
    ensures Compared(p + x, p + y) <==> Compared(x, y)
    decreases |p|
  {
    if p == [] {
      assert p + x == x && p + y == y;
    } else {
      var d := Decode(p).value;
      var rest := p[d.width..];
      EncodeDecode(p);
      DecodeEncode(d.codePoint, rest + x);
      DecodeEncode(d.codePoint, rest + y);
      FrontThenRest(p, d.width, Encode(d.codePoint), x);
      FrontThenRest(p, d.width, Encode(d.codePoint), y);
      ComparedBehind(rest, x, y);
    }
  }

  lemma {:induction false} ValidBehind(p: string, cp: int)
    requires IsUtf8(p) && IsScalar(cp)
    ensures IsUtf8(p + Encode(cp))
    decreases |p|
  {
    if p == [] {
      EncodingIsUtf8(cp);
      assert p + Encode(cp) == Encode(cp);
    } else {
      var d := Decode(p).value;
      EncodeDecode(p);
      ValidBehind(p[d.width..], cp);
      ScalarThenValid(d.codePoint, p[d.width..] + Encode(cp));
      FrontThenRest(p, d.width, Encode(d.codePoint), Encode(cp));
    }
  }

  lemma DecodesItself(cp: int)
    requires IsScalar(cp)
    ensures Decode(Encode(cp)) == Some(Decoded(cp, |Encode(cp)|))
  {
    DecodeEncode(cp, []);
    assert Encode(cp) + [] == Encode(cp);
  }

  /** In the gap: U+E000 behind the valid part precedes the malformed key, which precedes U+10FFFF there. */
  lemma GapMakesACycle(p: string, r: string)
    requires IsUtf8(p) && r != [] && Decode(r).None? && BreaksOrder(r)
    ensures var v, w := p + FIRST_OF_THREE, p + LAST_OF_FOUR;
      IsUtf8(v) && IsUtf8(w) && Less(v, p + r) && Less(p + r, w) && Less(w, v)
  {
    ValidBehind(p, 0xE000);
    ValidBehind(p, 0x10_FFFF);
    DecodesItself(0xE000);
    DecodesItself(0x10_FFFF);
    ComparesByScalars(p + FIRST_OF_THREE, p + r);
    ComparesByScalars(p + r, p + LAST_OF_FOUR);
    ComparesByScalars(p + LAST_OF_FOUR, p + FIRST_OF_THREE);
    ComparedBehind(p, FIRST_OF_THREE, r);
    ComparedBehind(p, r, LAST_OF_FOUR);
    ComparedBehind(p, LAST_OF_FOUR, FIRST_OF_THREE);
    UnitsByClass(0x10_FFFF, 0xE000);
  }

  lemma CycleIsNoOrder(v: string, b: string, w: string, extra: iset<string>)
    requires IsUtf8(v) && b in extra && IsUtf8(w) && Less(v, b) && Less(b, w) && Less(w, v)
    ensures !OrderedWith(extra)
  {
    if OrderedWith(extra) {
      assert Chain(v, b, w, extra);
      assert Chain(v, w, v, extra);
    }
  }

  /**
    The valid keys with any set of malformed keys added stay strictly totally ordered exactly when of
    none of these the bytes from its first undecodable one on lie strictly between EE 80 80 and
    F4 8F BF BF.
   */
  lemma OrderSurvivesMalformedKeys(extra: iset<string>)
    ensures OrderedWith(extra) <==> forall key | key in extra :: !BreaksOrder(Rest(key))
  {
    if b :| b in extra && BreaksOrder(Rest(b)) {
      var p := RestSplits(b);
      GapMakesACycle(p, Rest(b));
      CycleIsNoOrder(p + FIRST_OF_THREE, b, p + LAST_OF_FOUR, extra);
    } else {
      PlacesMakeAnOrder(extra);
    }
  }

  /** The two ends of the gap, byte by byte; a lone FF is above it and harmless, a lone F0 is inside it. */
  lemma GapEnds()
    ensures FIRST_OF_THREE == [0xEE as char, 0x80 as char, 0x80 as char]
    ensures LAST_OF_FOUR == [0xF4 as char, 0x8F as char, 0xBF as char, 0xBF as char]
    ensures !BreaksOrder([0xFF as char]) && BreaksOrder([0xF0 as char])
  {
    assert Bytes([0xF0 as char])[0] == 0xF0 && Bytes([0xFF as char])[0] == 0xFF;
    assert Bytes(FIRST_OF_THREE)[0] == 0xEE && Bytes(LAST_OF_FOUR)[0] == 0xF4;
  }
}
