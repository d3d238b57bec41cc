/**
  The member order of RFC 8785 section 3.2.3: names compare as strings of UTF-16 code units,
  produced one unit at a time from UTF-8 with at most one surrogate held back.
 */
module JcsOrder {
  import opened Options
  import opened Lexicographic
  import opened Utf

  /** The order of the keys the parser admits; it says nothing about malformed ones. */
  predicate KeyLess(left: string, right: string) {
    IsUtf8(left) && IsUtf8(right) && LexLess(Utf16(left), Utf16(right))
  }

  /** `KeyLess` is a strict total order on valid keys. */
  lemma KeyLessIsStrictTotalOrder(a: string, b: string, c: string)
    ensures !KeyLess(a, a)
    ensures KeyLess(a, b) && KeyLess(b, c) ==> KeyLess(a, c)
    ensures IsUtf8(a) && IsUtf8(b) ==> a == b || KeyLess(a, b) || KeyLess(b, a)
    ensures !(KeyLess(a, b) && KeyLess(b, a))
  {
    if KeyLess(a, b) && KeyLess(b, c) { LexTransitive(Utf16(a), Utf16(b), Utf16(c)); }
    if IsUtf8(a) {
      LexIrreflexive(Utf16(a));
      if KeyLess(a, b) && KeyLess(b, a) { LexTransitive(Utf16(a), Utf16(b), Utf16(a)); }
      if IsUtf8(b) {
        LexTotal(Utf16(a), Utf16(b));
        if Utf16(a) == Utf16(b) { Utf16IsInjective(a, b); }
      }
    }
  }

  /** The units still to come: a held-back surrogate, then those of the rest of the text. */
  ghost predicate Cursor(text: string, offset: nat, pending: int) {
    offset <= |text| && pending >= 0
  }

  /** The comparison of two cursors, including the raw-byte fallback on malformed text. */
  ghost function CompareFrom(left: string, lo: nat, lp: int, right: string, ro: nat, rp: int): bool
    requires Cursor(left, lo, lp) && Cursor(right, ro, rp)
    decreases |left| - lo, lp, |right| - ro, rp
  {
    var leftDone := lo >= |left| && lp == 0;
    var rightDone := ro >= |right| && rp == 0;
    if leftDone || rightDone then leftDone && !rightDone
    else if (lp == 0 && Decode(left[lo..]).None?) || (rp == 0 && Decode(right[ro..]).None?) then
      LexLess(Bytes(left), Bytes(right))
    else
      var Taken(lUnit, lo', lp') := NextUnit(left, lo, lp);
      var Taken(rUnit, ro', rp') := NextUnit(right, ro, rp);
      if lUnit != rUnit then lUnit < rUnit else CompareFrom(left, lo', lp', right, ro', rp')
  }

  /** The next unit, and the cursor after it. */
  datatype Taken = Taken(unit: int, offset: nat, pending: int)

  ghost function NextUnit(text: string, offset: nat, pending: int): (r: Taken)
    requires Cursor(text, offset, pending)
    requires pending != 0 || Decode(text[offset..]).Some?
    ensures Cursor(text, r.offset, r.pending)
    ensures if pending != 0 then r.offset == offset && r.pending == 0 else r.offset > offset
  {
    if pending != 0 then Taken(pending, offset, 0) else
    var d := Decode(text[offset..]).value;
    var units := UnitsOf(d.codePoint);
    Taken(units[0], offset + d.width, if |units| == 2 then units[1] else 0)
  }

  method NextCodeUnit(text: string, offset: nat, pending: int)
    returns (ok: bool, offset': nat, pending': int, unit: int)
    requires Cursor(text, offset, pending)
    ensures ok <==> pending != 0 || Decode(text[offset..]).Some?
    ensures ok ==> Taken(unit, offset', pending') == NextUnit(text, offset, pending)
    ensures Cursor(text, offset', pending')
  {
    if pending != 0 {
      return true, offset, 0, pending;
    }
    var valid, next, codePoint := DecodeCodePoint(text, offset);
    if !valid {
      return false, offset, 0, 0;
    }
    if codePoint < 0x1_0000 {
      return true, next, 0, codePoint;
    }
    var adjusted := codePoint - 0x1_0000;
    return true, next, 0xDC00 + adjusted % 1024, 0xD800 + adjusted / 1024;
  }

  method JcsKeyLess(left: string, right: string) returns (less: bool)
    ensures less == CompareFrom(left, 0, 0, right, 0, 0)
    ensures IsUtf8(left) && IsUtf8(right) ==> less == KeyLess(left, right)
  {
    if IsUtf8(left) && IsUtf8(right) {
      ComparisonIsKeyLess(left, right);
    }
    var lo: nat, ro: nat, lp, rp := 0, 0, 0, 0;
    while true
      invariant Cursor(left, lo, lp) && Cursor(right, ro, rp)
      invariant CompareFrom(left, 0, 0, right, 0, 0) == CompareFrom(left, lo, lp, right, ro, rp)
      decreases |left| - lo, lp, |right| - ro, rp
    {
      var leftDone := lo >= |left| && lp == 0;
      var rightDone := ro >= |right| && rp == 0;
      if leftDone || rightDone {
        return leftDone && !rightDone;
      }
      var leftOk, lo', lp', leftUnit := NextCodeUnit(left, lo, lp);
      var rightOk, ro', rp', rightUnit := NextCodeUnit(right, ro, rp);
      if !leftOk || !rightOk {
        less := RawLess(left, right);
        return;
      }
      if leftUnit != rightUnit {
        return leftUnit < rightUnit;
      }
      lo, lp, ro, rp := lo', lp', ro', rp';
    }
  }

  /** `std::string_view` comparison of the raw bytes. */
  method RawLess(left: string, right: string) returns (less: bool)
    ensures less == LexLess(Bytes(left), Bytes(right))
  {
    ghost var l, r := Bytes(left), Bytes(right);
    var i := 0;
    while i < |left| && i < |right| && left[i] == right[i]
      invariant 0 <= i <= |left| && i <= |right|
      invariant LexLess(l, r) == LexLess(l[i..], r[i..])
    {
      assert l[i..][1..] == l[i + 1..] && r[i..][1..] == r[i + 1..];
      i := i + 1;
    }
    if i < |left| && i < |right| {
      assert l[i..][0] == left[i] as int && r[i..][0] == right[i] as int;
      return left[i] < right[i];
    }
    return i < |right|;
  }

  ghost function Remaining(text: string, offset: nat, pending: int): seq<int>
    requires Cursor(text, offset, pending) && IsUtf8(text[offset..])
  {
    (if pending == 0 then [] else [pending]) + Utf16(text[offset..])
  }

  /** One unit taken from a valid text leaves the others. */
  lemma NextUnitTakesOne(text: string, offset: nat, pending: int)
    requires Cursor(text, offset, pending) && IsUtf8(text[offset..])
    requires !(offset >= |text| && pending == 0)
    ensures pending != 0 || Decode(text[offset..]).Some?
    ensures var Taken(unit, offset', pending') := NextUnit(text, offset, pending);
      && IsUtf8(text[offset'..])
      && Remaining(text, offset, pending) == [unit] + Remaining(text, offset', pending')
  {
    if pending == 0 {
      var d := Decode(text[offset..]).value;
      assert text[offset..][d.width..] == text[offset + d.width..];
    }
  }

  lemma {:induction false} ComparisonFollowsUnits(left: string, lo: nat, lp: int, right: string, ro: nat, rp: int)
    requires Cursor(left, lo, lp) && Cursor(right, ro, rp)
    requires IsUtf8(left[lo..]) && IsUtf8(right[ro..])
    ensures CompareFrom(left, lo, lp, right, ro, rp) == LexLess(Remaining(left, lo, lp), Remaining(right, ro, rp))
    decreases |left| - lo, lp, |right| - ro, rp
  {
    var leftDone := lo >= |left| && lp == 0;
    var rightDone := ro >= |right| && rp == 0;
    if !leftDone { NextUnitTakesOne(left, lo, lp); }
    if !rightDone { NextUnitTakesOne(right, ro, rp); }
    if !leftDone && !rightDone {
      var Taken(lUnit, lo', lp') := NextUnit(left, lo, lp);
      var Taken(rUnit, ro', rp') := NextUnit(right, ro, rp);
      if lUnit == rUnit {
        ComparisonFollowsUnits(left, lo', lp', right, ro', rp');
        assert Remaining(left, lo, lp)[1..] == Remaining(left, lo', lp');
        assert Remaining(right, ro, rp)[1..] == Remaining(right, ro', rp');
      }
    }
  }

  /** On valid keys the streaming comparison is the comparison of the two UTF-16 encodings. */
  lemma ComparisonIsKeyLess(left: string, right: string)
    requires IsUtf8(left) && IsUtf8(right)
    ensures CompareFrom(left, 0, 0, right, 0, 0) == KeyLess(left, right)
  {
    assert left[0..] == left && right[0..] == right;
    ComparisonFollowsUnits(left, 0, 0, right, 0, 0);
    assert Remaining(left, 0, 0) == Utf16(left) && Remaining(right, 0, 0) == Utf16(right);
  }

  /**
    On raw bytes the fallback keeps the comparison defined but not an order: U+FFFF precedes the
    malformed byte F0, which precedes U+10000, which precedes U+FFFF.
   */
  lemma FallbackIsCyclic()
    ensures exists a: string, b: string, c: string ::
      && IsUtf8(a) && !IsUtf8(b) && IsUtf8(c)
      && CompareFrom(a, 0, 0, b, 0, 0) && CompareFrom(b, 0, 0, c, 0, 0) && CompareFrom(c, 0, 0, a, 0, 0)
  {
    var a, b, c := Encode(0xFFFF), [0xF0 as char], Encode(0x1_0000);
    EncodingIsUtf8(0xFFFF);
    EncodingIsUtf8(0x1_0000);
    assert a[0..] == a && b[0..] == b && c[0..] == c;
    assert Decode(b).None?;
    DecodeEncode(0xFFFF, []);
    DecodeEncode(0x1_0000, []);
    assert a + [] == a && c + [] == c;
    assert Bytes(a)[0] == 0xEF && Bytes(b) == [0xF0] && Bytes(c)[0] == 0xF0;
    assert |Bytes(c)| == 4 && LexLess(Bytes(b)[1..], Bytes(c)[1..]);
    assert CompareFrom(a, 0, 0, b, 0, 0);
    assert CompareFrom(b, 0, 0, c, 0, 0);
    assert UnitsOf(0x1_0000)[0] == 0xD800;
    assert CompareFrom(c, 0, 0, a, 0, 0);
  }
}
