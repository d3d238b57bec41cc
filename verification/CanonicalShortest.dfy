/**
  Which of the many texts of a value is the canonical one, said through the reader alone: no other
  text that reads as the value is shorter, and of its equals it is the one in lower case.
 */
module CanonicalShortest {
  import opened Options
  import opened Sorting
  import opened Utf
  import opened Decimals
  import opened CanonicalValue
  import opened CanonicalWriter
  import opened CanonicalReader

  // ---- one byte

  /** The bytes with an escape of two characters (RFC 8259 section 7), and the character it ends in. */
  const SHORT_ESCAPES: seq<(int, char)> :=
    [(0x22, '"'), (0x5C, '\\'), (0x08, 'b'), (0x09, 't'), (0x0A, 'n'), (0x0C, 'f'), (0x0D, 'r')]

  /** What one unit of a string, an escape or a byte that stands for itself, reads as. */
  function ReadUnit(s: string): (r: Option<Scanned>)
    ensures r.Some? ==> |r.value.rest| < |s|
  {
    if s == [] || s[0] as int < 0x20 || s[0] == '"' then None
    else if s[0] == '\\' then ReadEscape(s[1..])
    else Some(Scanned([s[0]], s[1..]))
  }

  /** The string is one unit and reads as this byte. */
  predicate Spells(unit: string, c: char) {
    ReadUnit(unit) == Some(Scanned([c], []))
  }

  predicate HasShortEscape(c: char) {
    exists i :: 0 <= i < |SHORT_ESCAPES| && SHORT_ESCAPES[i].0 == c as int
  }

  lemma ShortEscapeBytes(c: char)
    ensures HasShortEscape(c) <==>
      c as int == 0x22 || c as int == 0x5C || c as int == 0x08 || c as int == 0x09 || c as int == 0x0A || c as int == 0x0C || c as int == 0x0D
  {
    assert SHORT_ESCAPES[0].0 == 0x22 && SHORT_ESCAPES[1].0 == 0x5C && SHORT_ESCAPES[2].0 == 0x08;
    assert SHORT_ESCAPES[3].0 == 0x09 && SHORT_ESCAPES[4].0 == 0x0A && SHORT_ESCAPES[5].0 == 0x0C && SHORT_ESCAPES[6].0 == 0x0D;
  }

  predicate StandsForItself(c: char) {
    c as int >= 0x20 && c != '"' && c != '\\'
  }

  /** The reader's two-character escapes are the standard's seven, and that of the slash. */
  lemma ShortEscapesRead(c: char, e: char)
    ensures Spells(['\\', e], c) <==> (c as int, e) in SHORT_ESCAPES || (c == '/' && e == '/')
  {
    var unit := ['\\', e];
    assert unit[1..] == [e] && [e][1..] == [];
    var escape := ReadEscape([e]);
    if (c as int, e) in SHORT_ESCAPES {
      var i :| 0 <= i < |SHORT_ESCAPES| && SHORT_ESCAPES[i] == (c as int, e);
    }
    assert escape.Some? ==> |escape.value.text| == 1;
    assert Spells(unit, c) ==> escape.value.text[0] == c;
    assert SHORT_ESCAPES[0] in SHORT_ESCAPES && SHORT_ESCAPES[1] in SHORT_ESCAPES && SHORT_ESCAPES[2] in SHORT_ESCAPES;
    assert SHORT_ESCAPES[3] in SHORT_ESCAPES && SHORT_ESCAPES[4] in SHORT_ESCAPES && SHORT_ESCAPES[5] in SHORT_ESCAPES;
    assert SHORT_ESCAPES[6] in SHORT_ESCAPES;
  }

  predicate IsLowerHex(c: char) {
    '0' <= c <= '9' || 'a' <= c <= 'f'
  }

  /** A `\u` escape of a byte, in lower case. */
  predicate IsUnicodeEscape(unit: string) {
    |unit| == 6 && unit[..4] == "\\u00" && IsLowerHex(unit[4]) && IsLowerHex(unit[5])
  }

  lemma HexDigitIsLower(n: nat)
    requires n < 16
    ensures IsLowerHex(HEX_DIGITS[n]) && HexValue(HEX_DIGITS[n]) == Some(n)
  {
  }

  lemma ControlEscape(c: char)
    requires c as int < 0x20
    requires EscapeOf(c) == "\\u00" + [HEX_DIGITS[c as int / 16], HEX_DIGITS[c as int % 16]]
    ensures Spells(EscapeOf(c), c) && IsUnicodeEscape(EscapeOf(c))
  {
    var unit := EscapeOf(c);
    HexDigitIsLower(c as int / 16);
    HexDigitIsLower(c as int % 16);
    var s := unit[1..];
    assert s[0] == 'u' && s[1] == '0' && s[2] == '0' && s[3] == unit[4] && s[4] == unit[5];
    assert HexQuad(s[1..]) == Some(c as int);
    assert s[1..][4..] == [];
  }

  /**
    How the writer writes each byte: as itself from 0x20 on but for the quote and the backslash, by
    the escape of two characters where the standard has one, and otherwise by `\u` in lower case.
   */
  lemma EscapeIsCanonical(c: char)
    ensures Spells(EscapeOf(c), c)
    ensures EscapeOf(c) == [c] <==> StandsForItself(c)
    ensures (exists e :: EscapeOf(c) == ['\\', e]) <==> HasShortEscape(c)
    ensures forall e :: EscapeOf(c) == ['\\', e] ==> (c as int, e) in SHORT_ESCAPES
    ensures !StandsForItself(c) && !HasShortEscape(c) ==> IsUnicodeEscape(EscapeOf(c))
  {
    ShortEscapeTable(c);
    ShortEscapeBytes(c);
    if StandsForItself(c) {
      assert EscapeOf(c) == [c] && [c][1..] == [];
    } else if HasShortEscape(c) {
      var i :| 0 <= i < |SHORT_ESCAPES| && SHORT_ESCAPES[i].0 == c as int;
      var e := SHORT_ESCAPES[i].1;
      assert EscapeOf(c) == ['\\', e] && SHORT_ESCAPES[i] in SHORT_ESCAPES;
      ShortEscapesRead(c, e);
    } else {
      ControlEscape(c);
    }
  }

  /** The writer's table is the standard's. */
  lemma ShortEscapeTable(c: char)
    ensures forall i | 0 <= i < |SHORT_ESCAPES| && SHORT_ESCAPES[i].0 == c as int :: EscapeOf(c) == ['\\', SHORT_ESCAPES[i].1]
    ensures HasShortEscape(c) ==> !StandsForItself(c)
  {
  }

  // ---- one text

  lemma EscapeSize(c: char)
    ensures |EscapeOf(c)| == if StandsForItself(c) then 1 else if HasShortEscape(c) then 2 else 6
  {
    ShortEscapeTable(c);
    ShortEscapeBytes(c);
  }

  lemma EscapedOne(c: char)
    ensures Escaped([c]) == EscapeOf(c)
  {
    assert [c][1..] == [] && EscapeOf(c) + [] == EscapeOf(c);
  }

  lemma {:induction false} HighBytes(text: string)
    requires forall i | 0 <= i < |text| :: text[i] as int >= 0x80
    ensures |Escaped(text)| == |text|
  {
    if text != [] {
      EscapeSize(text[0]);
      HighBytes(text[1..]);
    }
  }

  /** What a `\u` escape of six characters stands for is written in no more. */
  lemma EncodedSize(cp: int)
    requires IsScalar(cp)
    ensures |Escaped(Encode(cp))| <= 6
  {
    if cp < 0x80 {
      EscapedOne(cp as char);
      EscapeSize(cp as char);
    } else {
      HighBytes(Encode(cp));
    }
  }

  /** The characters one unit takes are no fewer than those its text is written in. */
  lemma UnitIsNoShorter(s: string)
    requires ReadUnit(s).Some?
    ensures |Escaped(ReadUnit(s).value.text)| <= |s| - |ReadUnit(s).value.rest|
  {
    var unit := ReadUnit(s).value;
    if s[0] != '\\' {
      EscapedOne(s[0]);
      EscapeSize(s[0]);
    } else if s[1] == 'u' {
      UnicodeIsNoShorter(s[2..]);
      assert s[1..][1..] == s[2..];
    } else {
      assert |unit.text| == 1 && unit.text == [unit.text[0]] && unit.rest == s[2..];
      EscapedOne(unit.text[0]);
      EscapeSize(unit.text[0]);
    }
  }

  lemma UnicodeIsNoShorter(s: string)
    requires ReadUnicode(s).Some?
    ensures |Escaped(ReadUnicode(s).value.text)| <= |s| - |ReadUnicode(s).value.rest| + 2
  {
    var unit := HexQuad(s).value;
    if 0xD800 <= unit < 0xDC00 {
      EncodedSize(0x1_0000 + (unit - 0xD800) * 1024 + (HexQuad(s[6..]).value - 0xDC00));
    } else {
      EncodedSize(unit);
    }
  }

  /**
    The shortest-escape law: of all the ways to write a text between quotes, whatever escapes they
    use, none is shorter than the canonical one.
   */
  lemma {:induction false} EscapesAreShortest(s: string)
    requires ReadChars(s).Some?
    ensures |Quoted(ReadChars(s).value.text)| <= |s| - |ReadChars(s).value.rest| + 1
    decreases |s|
  {
    if s[0] != '"' {
      var unit := ReadUnit(s).value;
      var tail := ReadChars(unit.rest).value;
      UnitIsNoShorter(s);
      EscapesAreShortest(unit.rest);
      EscapedConcat(unit.text, tail.text);
    }
  }

  /** Of the ways to write one byte, the canonical one is the only one of its length in lower case. */
  lemma EscapeIsUnique(unit: string, c: char)
    requires Spells(unit, c)
    ensures |EscapeOf(c)| <= |unit|
    ensures |unit| == |EscapeOf(c)| && (|unit| == 6 ==> IsLowerHex(unit[4]) && IsLowerHex(unit[5])) ==> unit == EscapeOf(c)
  {
    UnitIsNoShorter(unit);
    EscapedOne(c);
    EscapeIsCanonical(c);
    EscapeSize(c);
    if |unit| == 1 {
      assert unit == [unit[0]];
    } else if |unit| == 2 && |EscapeOf(c)| == 2 {
      TwoCharacters(unit, c);
    } else if |unit| == 6 && |EscapeOf(c)| == 6 && IsLowerHex(unit[4]) && IsLowerHex(unit[5]) {
      SixCharacters(unit, c);
    }
  }

  lemma TwoCharacters(unit: string, c: char)
    requires Spells(unit, c) && |unit| == 2 && |EscapeOf(c)| == 2
    ensures unit == EscapeOf(c)
  {
    assert unit[0] == '\\';
    assert unit == ['\\', unit[1]];
    ShortEscapesRead(c, unit[1]);
    EscapeSize(c);
    ShortEscapeTable(c);
    assert c != '/';
    var i :| 0 <= i < |SHORT_ESCAPES| && SHORT_ESCAPES[i] == (c as int, unit[1]);
  }

  lemma SixCharacters(unit: string, c: char)
    requires Spells(unit, c) && |unit| == 6 && |EscapeOf(c)| == 6 && IsLowerHex(unit[4]) && IsLowerHex(unit[5])
    ensures unit == EscapeOf(c)
  {
    EscapeSize(c);
    assert unit[0] == '\\' && unit[1] == 'u';
    var quad := unit[1..][1..];
    assert |quad| == 4 && quad[0] == unit[2] && quad[1] == unit[3] && quad[2] == unit[4] && quad[3] == unit[5];
    var n := HexQuad(quad).value;
    SmallEncoding(n, c);
    SmallQuad(quad, n);
    LowerHexIs(unit[4], n / 16);
    LowerHexIs(unit[5], n % 16);
    assert unit == "\\u00" + [unit[4], unit[5]];
  }

  lemma SmallEncoding(n: int, c: char)
    requires IsScalar(n) && Encode(n) == [c]
    ensures n == c as int < 0x80
  {
    assert Encode(n)[0] == c;
  }

  lemma SmallQuad(quad: string, n: nat)
    requires |quad| == 4 && HexQuad(quad) == Some(n) && n < 0x80
    ensures quad[0] == '0' && quad[1] == '0' && HexValue(quad[2]) == Some(n / 16) && HexValue(quad[3]) == Some(n % 16)
  {
    var a, b, c, d := HexValue(quad[0]).value, HexValue(quad[1]).value, HexValue(quad[2]).value, HexValue(quad[3]).value;
    assert n == a * 4096 + b * 256 + c * 16 + d;
    assert a == 0 && b == 0;
    assert n / 16 == c && n % 16 == d;
  }

  lemma LowerHexIs(c: char, n: nat)
    requires IsLowerHex(c) && HexValue(c) == Some(n)
    ensures n < 16 && c == HEX_DIGITS[n]
  {
  }

  // ---- one value

  /** The canonical elements, each with the character after it. */
  function ElementsSize(es: seq<Value>): nat {
    if es == [] then 0 else |Canonical(es[0])| + 1 + ElementsSize(es[1..])
  }

  function MembersSize(ms: seq<Member>): nat {
    if ms == [] then 0 else |CanonicalMember(ms[0])| + 1 + MembersSize(ms[1..])
  }

  lemma {:induction false} SizeOfElements(es: seq<Value>)
    requires es != []
    ensures |CanonicalElements(es)| + 1 == ElementsSize(es)
  {
    if |es| > 1 {
      SizeOfElements(es[1..]);
    }
  }

  lemma {:induction false} SizeOfMembers(ms: seq<Member>)
    requires ms != []
    ensures |CanonicalMembers(ms)| + 1 == MembersSize(ms)
  {
    if |ms| > 1 {
      SizeOfMembers(ms[1..]);
    }
  }

  lemma {:induction false} MembersSizeSnoc(ms: seq<Member>, m: Member)
    ensures MembersSize(ms + [m]) == MembersSize(ms) + |CanonicalMember(m)| + 1
  {
    if ms == [] {
      assert ms + [m] == [m] && [m][1..] == [];
    } else {
      assert (ms + [m])[1..] == ms[1..] + [m];
      MembersSizeSnoc(ms[1..], m);
    }
  }

  lemma {:induction false} InsertSize(m: Member, ms: seq<Member>)
    ensures MembersSize(Insert(MemberLess, m, ms)) == MembersSize(ms) + |CanonicalMember(m)| + 1
  {
    var inserted := Insert(MemberLess, m, ms);
    if ms == [] || MemberLess(m, ms[0]) {
      assert inserted[0] == m && inserted[1..] == ms;
    } else {
      assert inserted[0] == ms[0] && inserted[1..] == Insert(MemberLess, m, ms[1..]);
      InsertSize(m, ms[1..]);
    }
  }

  /** Sorting the members changes no length. */
  lemma {:induction false} SortedSize(ms: seq<Member>)
    ensures MembersSize(Sorted(ms)) == MembersSize(ms) && |Sorted(ms)| == |ms|
  {
    if ms != [] {
      SortedSize(ms[1..]);
      InsertSize(ms[0], Sorted(ms[1..]));
    }
  }

  lemma NumberIsNoShorter(token: string)
    requires ReadNumber(token).Ok?
    ensures Canonical(ReadNumber(token).value) == token
  {
    IntegerTokensAreCanonical(token);
  }

  lemma TokenIsNoShorter(s: string, nodes: nat)
    requires s != [] && ParseToken(s, nodes).Ok?
    ensures |Canonical(ParseToken(s, nodes).value.value)| <= |s| - |ParseToken(s, nodes).value.rest|
  {
    var token := Token(s);
    if token != "null" && token != "true" && token != "false" {
      NumberIsNoShorter(token);
    }
  }

  lemma StringIsNoShorter(s: string)
    requires ReadString(s).Ok?
    ensures |Quoted(ReadString(s).value.text)| <= |s| - |ReadString(s).value.rest| + 1
  {
    EscapesAreShortest(s);
  }

  /** No text that reads as a value is shorter than the canonical one. */
  lemma {:induction false} ValueIsNoShorter(s: string, depth: nat, nodes: nat)
    requires ParseValue(s, depth, nodes).Ok?
    ensures |Canonical(ParseValue(s, depth, nodes).value.value)| <= |s| - |ParseValue(s, depth, nodes).value.rest|
    decreases |s|, 0
  {
    if s[0] == '{' {
      ObjectIsNoShorter(s[1..], depth, nodes + 1);
    } else if s[0] == '[' {
      ArrayIsNoShorter(s[1..], depth, nodes + 1);
    } else if s[0] == '"' {
      StringIsNoShorter(s[1..]);
    } else {
      TokenIsNoShorter(s, nodes + 1);
    }
  }

  lemma {:induction false} ArrayIsNoShorter(s: string, depth: nat, nodes: nat)
    requires ParseArray(s, depth, nodes).Ok?
    ensures |Canonical(ParseArray(s, depth, nodes).value.value)| <= |s| - |ParseArray(s, depth, nodes).value.rest| + 1
    decreases |s|, 2
  {
    var t := SkipSpace(s);
    if t[0] != ']' {
      ElementsAreNoShorter(t, depth + 1, nodes);
      var list := ParseElements(t, depth + 1, nodes).value;
      SizeOfElements(list.elements);
    }
  }

  lemma {:induction false} ElementsAreNoShorter(s: string, depth: nat, nodes: nat)
    requires ParseElements(s, depth, nodes).Ok?
    ensures var list := ParseElements(s, depth, nodes).value;
      list.elements != [] && ElementsSize(list.elements) <= |s| - |list.rest|
    decreases |s|, 1
  {
    var u := SkipSpace(s);
    ValueIsNoShorter(u, depth, nodes);
    var head := ParseValue(u, depth, nodes).value;
    var t := SkipSpace(head.rest);
    if t[0] == ']' {
      assert [head.value][1..] == [];
    } else {
      ElementsAreNoShorter(t[1..], depth, head.nodes);
      var tail := ParseElements(t[1..], depth, head.nodes).value;
      assert ([head.value] + tail.elements)[1..] == tail.elements;
    }
  }

  lemma {:induction false} ObjectIsNoShorter(s: string, depth: nat, nodes: nat)
    requires ParseObject(s, depth, nodes).Ok?
    ensures |Canonical(ParseObject(s, depth, nodes).value.value)| <= |s| - |ParseObject(s, depth, nodes).value.rest| + 1
    decreases |s|, 2
  {
    var t := SkipSpace(s);
    if t[0] != '}' {
      MembersAreNoShorter(t, depth + 1, nodes, []);
      var list := ParseMembers(t, depth + 1, nodes, []).value;
      SortedSize(list.members);
      SizeOfMembers(Sorted(list.members));
    }
  }

  lemma {:induction false} MembersAreNoShorter(s: string, depth: nat, nodes: nat, before: seq<Member>)
    requires ValidKeys(before) && DistinctKeys(before) && ParseMembers(s, depth, nodes, before).Ok?
    ensures var list := ParseMembers(s, depth, nodes, before).value;
      list.members != [] && MembersSize(list.members) <= MembersSize(before) + |s| - |list.rest|
    decreases |s|, 1
  {
    var t := SkipSpace(s);
    var name := ReadString(t[1..]).value;
    StringIsNoShorter(t[1..]);
    var u := SkipSpace(name.rest);
    var v := SkipSpace(u[1..]);
    ValueIsNoShorter(v, depth, nodes);
    var head := ParseValue(v, depth, nodes).value;
    var w := SkipSpace(head.rest);
    var member := Member(name.text, head.value);
    MembersSizeSnoc(before, member);
    assert |CanonicalMember(member)| == |Quoted(name.text)| + 1 + |Canonical(head.value)|;
    if w[0] != '}' {
      MembersAreNoShorter(w[1..], depth, head.nodes, before + [member]);
    }
  }

  /** The gate admits, of all the texts that read as a record, a shortest one. */
  lemma CanonicalIsShortest(bytes: string)
    requires ParseRecord(bytes).Ok?
    ensures |Canonical(ParseRecord(bytes).value)| <= |bytes|
  {
    ValueIsNoShorter(bytes, 1, 0);
  }
}
