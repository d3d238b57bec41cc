/**
  The reader against the grammar: concrete syntax trees with every blank and every escape, after
  RFC 8259 with bare integers for numbers. What is read is what some tree writes and means, and every
  tree within the limits is read.
 */
module CanonicalGrammar {
  import opened Options
  import opened Sorting
  import opened Utf
  import opened Decimals
  import opened CanonicalValue
  import opened CanonicalReader
  import opened CanonicalShortest
  import opened CanonicalGate
  import opened CanonicalRecord

  // ---- strings (RFC 8259 section 7)

  lemma Assoc(a: string, b: string, c: string)
    ensures a + b + c == a + (b + c)
  {
  }

  datatype Unit = Plain(c: char) | Short(e: char) | Basic(digits: string) | Pair(high: string, low: string)

  function DigitOf(c: char): int {
    if '0' <= c <= '9' then c as int - '0' as int
    else if 'a' <= c <= 'f' then c as int - 'a' as int + 10
    else if 'A' <= c <= 'F' then c as int - 'A' as int + 10
    else -1
  }

  predicate IsQuad(s: string) {
    |s| == 4 && forall i | 0 <= i < 4 :: DigitOf(s[i]) >= 0
  }

  function QuadOf(s: string): (n: int)
    requires IsQuad(s)
  {
    ((DigitOf(s[0]) * 16 + DigitOf(s[1])) * 16 + DigitOf(s[2])) * 16 + DigitOf(s[3])
  }

  predicate IsUnit(u: Unit) {
    match u
    case Plain(c) => c as int >= 0x20 && c != '"' && c != '\\'
    case Short(e) => e in "\"\\/bfnrt"
    case Basic(digits) => IsQuad(digits) && !(0xD800 <= QuadOf(digits) < 0xE000)
    case Pair(high, low) => IsQuad(high) && IsQuad(low) && 0xD800 <= QuadOf(high) < 0xDC00 <= QuadOf(low) < 0xE000
  }

  function UnitText(u: Unit): string {
    match u
    case Plain(c) => [c]
    case Short(e) => ['\\', e]
    case Basic(digits) => "\\u" + digits
    case Pair(high, low) => "\\u" + (high + ("\\u" + low))
  }

  predicate AreUnits(units: seq<Unit>) {
    forall i | 0 <= i < |units| :: IsUnit(units[i])
  }

  function UnitsText(units: seq<Unit>): string {
    if units == [] then "" else UnitText(units[0]) + UnitsText(units[1..])
  }

  /** The byte after a backslash. */
  function ShortValue(e: char): char {
    if e == 'b' then 0x08 as char
    else if e == 't' then 0x09 as char
    else if e == 'n' then 0x0A as char
    else if e == 'f' then 0x0C as char
    else if e == 'r' then 0x0D as char
    else e
  }

  /** The bytes a unit stands for: itself, the escaped byte, or the UTF-8 of a scalar. */
  function UnitValue(u: Unit): string {
    if !IsUnit(u) then "" else
    match u
    case Plain(c) => [c]
    case Short(e) => [ShortValue(e)]
    case Basic(digits) => Encode(QuadOf(digits))
    case Pair(high, low) => Encode(0x1_0000 + (QuadOf(high) - 0xD800) * 0x400 + (QuadOf(low) - 0xDC00))
  }

  function UnitsValue(units: seq<Unit>): string {
    if units == [] then "" else UnitValue(units[0]) + UnitsValue(units[1..])
  }

  lemma ScalarOfUnits(cp: int, text: string)
    requires IsScalar(cp)
    ensures IsUtf8(text) && Utf16(text) == UnitsOf(cp) <==> text == Encode(cp)
  {
    EncodingIsUtf8(cp);
    DecodeEncode(cp, []);
    var bytes := Encode(cp);
    assert bytes + [] == bytes && bytes[|bytes|..] == [] && UnitsOf(cp) + [] == UnitsOf(cp);
    assert Utf16(bytes) == UnitsOf(cp);
    if IsUtf8(text) && Utf16(text) == UnitsOf(cp) {
      Utf16IsInjective(text, bytes);
    }
  }

  lemma BasicSpells(digits: string, text: string)
    requires IsUnit(Basic(digits))
    ensures text == Encode(QuadOf(digits)) <==> IsUtf8(text) && Utf16(text) == [QuadOf(digits)]
  {
    ScalarOfUnits(QuadOf(digits), text);
  }

  lemma PairSpells(h: int, l: int, text: string)
    requires 0xD800 <= h < 0xDC00 <= l < 0xE000
    ensures text == Encode(0x1_0000 + (h - 0xD800) * 0x400 + (l - 0xDC00)) <==> IsUtf8(text) && Utf16(text) == [h, l]
  {
    var cp := 0x1_0000 + (h - 0xD800) * 0x400 + (l - 0xDC00);
    PairParts(h, l, cp);
    ScalarOfUnits(cp, text);
  }

  lemma PairParts(h: int, l: int, cp: int)
    requires 0xD800 <= h < 0xDC00 <= l < 0xE000 && cp == 0x1_0000 + (h - 0xD800) * 0x400 + (l - 0xDC00)
    ensures IsScalar(cp) && UnitsOf(cp) == [h, l]
  {
  }

  /** A `\u` escape stands for the one text whose UTF-16 is the code units it spells. */
  lemma EscapesSpellUtf16(u: Unit, text: string)
    requires IsUnit(u)
    ensures u.Basic? ==> (text == UnitValue(u) <==> IsUtf8(text) && Utf16(text) == [QuadOf(u.digits)])
    ensures u.Pair? ==> (text == UnitValue(u) <==> IsUtf8(text) && Utf16(text) == [QuadOf(u.high), QuadOf(u.low)])
  {
    if u.Basic? {
      BasicSpells(u.digits, text);
    } else if u.Pair? {
      PairSpells(QuadOf(u.high), QuadOf(u.low), text);
    }
  }

  lemma QuadsAgree(s: string, digits: string, rest: string)
    requires s == digits + rest && |digits| == 4
    ensures HexQuad(s) == if IsQuad(digits) then Some(QuadOf(digits)) else None
    ensures s[4..] == rest
  {
    assert s[0] == digits[0] && s[1] == digits[1] && s[2] == digits[2] && s[3] == digits[3];
  }

  lemma PairReads(high: string, low: string, rest: string)
    requires IsUnit(Pair(high, low))
    ensures ReadUnicode(high + ("\\u" + low) + rest) == Some(Scanned(UnitValue(Pair(high, low)), rest))
  {
    var s := high + ("\\u" + low) + rest;
    QuadsAgree(s, high, "\\u" + low + rest);
    assert s[4] == '\\' && s[5] == 'u';
    assert s[6..] == low + rest;
    QuadsAgree(s[6..], low, rest);
    assert s[10..] == s[6..][4..];
  }

  lemma BasicReads(digits: string, rest: string)
    requires IsUnit(Basic(digits))
    ensures ReadUnicode(digits + rest) == Some(Scanned(UnitValue(Basic(digits)), rest))
  {
    QuadsAgree(digits + rest, digits, rest);
  }

  lemma UnicodeAhead(s: string, t: string)
    requires s == "\\u" + t
    ensures s[0] == '\\' && ReadEscape(s[1..]) == ReadUnicode(t)
  {
    assert s[1..][1..] == t;
  }

  lemma ShortReads(e: char, s: string, rest: string)
    requires IsUnit(Short(e)) && s == ['\\', e] + rest
    ensures s[0] == '\\' && ReadEscape(s[1..]) == Some(Scanned([ShortValue(e)], rest))
  {
    assert s[1..][0] == e && s[1..][1..] == rest;
  }

  lemma EscapeReads(u: Unit, s: string, rest: string)
    requires IsUnit(u) && !u.Plain? && s == UnitText(u) + rest
    ensures s[0] == '\\' && ReadEscape(s[1..]) == Some(Scanned(UnitValue(u), rest))
  {
    match u
    case Short(e) =>
      ShortReads(e, s, rest);
    case Basic(digits) =>
      Assoc("\\u", digits, rest);
      UnicodeAhead(s, digits + rest);
      BasicReads(digits, rest);
    case Pair(high, low) =>
      Assoc("\\u", high + ("\\u" + low), rest);
      UnicodeAhead(s, high + ("\\u" + low) + rest);
      PairReads(high, low, rest);
  }

  lemma UnitReads(u: Unit, s: string, rest: string)
    requires IsUnit(u) && s == UnitText(u) + rest
    ensures s != [] && ReadUnit(s) == Some(Scanned(UnitValue(u), rest))
  {
    if u.Plain? {
      assert s[1..] == rest;
    } else {
      EscapeReads(u, s, rest);
    }
  }

  lemma {:induction false} UnitsRead(units: seq<Unit>, s: string, rest: string)
    requires AreUnits(units) && s == UnitsText(units) + ("\"" + rest)
    ensures ReadChars(s) == Some(Scanned(UnitsValue(units), rest))
  {
    if units == [] {
      assert s[1..] == rest;
    } else {
      var tail := UnitsText(units[1..]) + ("\"" + rest);
      Assoc(UnitText(units[0]), UnitsText(units[1..]), "\"" + rest);
      UnitReads(units[0], s, tail);
      UnitsRead(units[1..], tail, rest);
    }
  }

  lemma QuadAhead(s: string)
    requires HexQuad(s).Some?
    ensures IsQuad(s[..4]) && HexQuad(s) == Some(QuadOf(s[..4])) && s == s[..4] + s[4..]
  {
    QuadsAgree(s, s[..4], s[4..]);
  }

  lemma PairAhead(s: string)
    requires ReadUnicode(s).Some? && 0xD800 <= HexQuad(s).value < 0xDC00
    ensures |s| >= 10 && IsUnit(Pair(s[..4], s[6..10]))
    ensures s == s[..4] + ("\\u" + s[6..10]) + s[10..]
    ensures ReadUnicode(s) == Some(Scanned(UnitValue(Pair(s[..4], s[6..10])), s[10..]))
  {
    var t := s[6..];
    QuadAhead(s);
    QuadAhead(t);
    assert t[..4] == s[6..10] && t[4..] == s[10..];
    assert s[4..6] == "\\u";
    assert s == s[..4] + s[4..6] + s[6..10] + s[10..];
  }

  lemma BasicAhead(s: string)
    requires ReadUnicode(s).Some? && !(0xD800 <= HexQuad(s).value < 0xDC00)
    ensures IsUnit(Basic(s[..4])) && s == s[..4] + s[4..]
    ensures ReadUnicode(s) == Some(Scanned(UnitValue(Basic(s[..4])), s[4..]))
  {
    QuadAhead(s);
  }

  lemma UnicodeIsUnit(s: string) returns (u: Unit)
    requires ReadUnicode(s).Some?
    ensures IsUnit(u) && "\\u" + s == UnitText(u) + ReadUnicode(s).value.rest && UnitValue(u) == ReadUnicode(s).value.text
  {
    if 0xD800 <= HexQuad(s).value < 0xDC00 {
      PairAhead(s);
      u := Pair(s[..4], s[6..10]);
      Assoc("\\u", s[..4] + ("\\u" + s[6..10]), s[10..]);
    } else {
      BasicAhead(s);
      u := Basic(s[..4]);
      Assoc("\\u", s[..4], s[4..]);
    }
  }

  lemma EscapeIsUnit(s: string, scanned: Scanned) returns (u: Unit)
    requires s != [] && s[0] == '\\' && ReadEscape(s[1..]) == Some(scanned)
    ensures IsUnit(u) && s == UnitText(u) + scanned.rest && UnitValue(u) == scanned.text
  {
    if s[1] == 'u' {
      assert s == "\\u" + s[2..] && s[1..][1..] == s[2..];
      UnicodeAhead(s, s[2..]);
      u := UnicodeIsUnit(s[2..]);
    } else {
      u := Short(s[1]);
      ShortAhead(s[1..]);
      assert s == "\\" + s[1..];
    }
  }

  lemma ShortAhead(s: string)
    requires ReadEscape(s).Some? && s[0] != 'u'
    ensures IsUnit(Short(s[0])) && "\\" + s == UnitText(Short(s[0])) + s[1..]
    ensures ReadEscape(s) == Some(Scanned(UnitValue(Short(s[0])), s[1..]))
  {
  }

  lemma ReadUnitIsUnit(s: string, scanned: Scanned) returns (u: Unit)
    requires ReadUnit(s) == Some(scanned)
    ensures IsUnit(u) && s == UnitText(u) + scanned.rest && UnitValue(u) == scanned.text
  {
    if s[0] == '\\' {
      u := EscapeIsUnit(s, scanned);
    } else {
      u := Plain(s[0]);
      assert s == [s[0]] + s[1..];
    }
  }

  lemma CharsAhead(s: string, scanned: Scanned) returns (head: Scanned, tail: Scanned)
    requires ReadChars(s) == Some(scanned) && s[0] != '"'
    ensures ReadUnit(s) == Some(head) && ReadChars(head.rest) == Some(tail) && |head.rest| < |s|
    ensures scanned == Scanned(head.text + tail.text, tail.rest)
  {
    head := ReadUnit(s).value;
    tail := ReadChars(head.rest).value;
  }

  lemma UnitsCons(u: Unit, units: seq<Unit>)
    ensures UnitsText([u] + units) == UnitText(u) + UnitsText(units)
    ensures UnitsValue([u] + units) == UnitValue(u) + UnitsValue(units)
  {
    assert ([u] + units)[1..] == units;
  }

  lemma {:induction false} CharsAreUnits(s: string, scanned: Scanned) returns (units: seq<Unit>)
    requires ReadChars(s) == Some(scanned)
    ensures AreUnits(units) && s == UnitsText(units) + ("\"" + scanned.rest)
    ensures UnitsValue(units) == scanned.text
    decreases |s|
  {
    if s[0] == '"' {
      units := [];
      assert s == "\"" + s[1..];
    } else {
      var head, tail := CharsAhead(s, scanned);
      var u := ReadUnitIsUnit(s, head);
      var more := CharsAreUnits(head.rest, tail);
      units := [u] + more;
      UnitsCons(u, more);
      Regrouped(s, UnitText(u), head.rest, UnitsText(more), "\"" + scanned.rest);
    }
  }

  lemma Regrouped(s: string, a: string, b: string, c: string, d: string)
    requires s == a + b && b == c + d
    ensures s == a + c + d
  {
  }

  // ---- trees (RFC 8259 sections 2 to 6)

  datatype Tree =
    | TNull
    | TBoolean(boolean: bool)
    | TInteger(integer: int)
    | TText(units: seq<Unit>)
    | TArray(gap: string, items: seq<Item>)
    | TObject(gap: string, fields: seq<Field>)

  datatype Item = Item(before: string, value: Tree, after: string)

  datatype Field = Field(before: string, name: seq<Unit>, beforeColon: string, afterColon: string, value: Tree, after: string)

  predicate IsGap(s: string) {
    forall i | 0 <= i < |s| :: s[i] as int in {0x20, 0x09, 0x0A, 0x0D}
  }

  predicate AreText(units: seq<Unit>) {
    AreUnits(units) && IsUtf8(UnitsValue(units))
  }

  function TreeText(t: Tree): string
    decreases t
  {
    match t
    case TNull => "null"
    case TBoolean(b) => if b then "true" else "false"
    case TInteger(n) => IntegerText(n)
    case TText(units) => "\"" + UnitsText(units) + "\""
    case TArray(gap, items) => "[" + (if items == [] then gap else ItemsText(items)) + "]"
    case TObject(gap, fields) => "{" + (if fields == [] then gap else FieldsText(fields)) + "}"
  }

  function ItemsText(items: seq<Item>): string
    decreases items
  {
    if items == [] then ""
    else items[0].before + TreeText(items[0].value) + items[0].after + (if |items| > 1 then "," else "") + ItemsText(items[1..])
  }

  function FieldsText(fields: seq<Field>): string
    decreases fields
  {
    if fields == [] then ""
    else FieldText(fields[0]) + (if |fields| > 1 then "," else "") + FieldsText(fields[1..])
  }

  function FieldText(f: Field): string
    decreases f
  {
    f.before + "\"" + UnitsText(f.name) + "\"" + f.beforeColon + ":" + f.afterColon + TreeText(f.value) + f.after
  }

  /** What the tree means. */
  function TreeValue(t: Tree): Value
    decreases t
  {
    match t
    case TNull => Null
    case TBoolean(b) => Boolean(b)
    case TInteger(n) => Integer(n)
    case TText(units) => Text(UnitsValue(units))
    case TArray(_, items) => Array(ItemValues(items))
    case TObject(_, fields) => MakeObject(FieldValues(fields))
  }

  function ItemValues(items: seq<Item>): (values: seq<Value>)
    ensures |values| == |items|
    decreases items
  {
    if items == [] then [] else [TreeValue(items[0].value)] + ItemValues(items[1..])
  }

  function FieldValues(fields: seq<Field>): (members: seq<Member>)
    ensures |members| == |fields|
    decreases fields
  {
    if fields == [] then []
    else [Member(UnitsValue(fields[0].name), TreeValue(fields[0].value))] + FieldValues(fields[1..])
  }

  /** A tree of the grammar: text in UTF-8, integers of 64 bits, and no name twice in an object. */
  predicate IsTree(t: Tree)
    decreases t
  {
    match t
    case TNull => true
    case TBoolean(_) => true
    case TInteger(n) => -0x8000_0000_0000_0000 <= n <= 0x7FFF_FFFF_FFFF_FFFF
    case TText(units) => AreText(units)
    case TArray(gap, items) => IsGap(gap) && AreItems(items)
    case TObject(gap, fields) => IsGap(gap) && AreFields(fields) && DistinctKeys(FieldValues(fields))
  }

  predicate AreItems(items: seq<Item>)
    decreases items
  {
    items == [] || (IsGap(items[0].before) && IsTree(items[0].value) && IsGap(items[0].after) && AreItems(items[1..]))
  }

  predicate IsField(f: Field)
    decreases f
  {
    && IsGap(f.before) && AreText(f.name) && IsGap(f.beforeColon) && IsGap(f.afterColon)
    && IsTree(f.value) && IsGap(f.after)
  }

  predicate AreFields(fields: seq<Field>)
    decreases fields
  {
    fields == [] || (IsField(fields[0]) && AreFields(fields[1..]))
  }


  // ---- every tree is read, within the limits

  /** The value is within every limit at this depth, after so many nodes. */
  ghost predicate Within(v: Value, depth: nat, nodes: nat) {
    Fits(v) && depth + Depth(v) - 1 <= MAXIMUM_RECORD_DEPTH && nodes + Nodes(v) <= MAXIMUM_RECORD_NODES
  }

  ghost predicate ElementsWithin(es: seq<Value>, depth: nat, nodes: nat) {
    && ElementsFit(es) && depth + DepthOfElements(es) - 1 <= MAXIMUM_RECORD_DEPTH
    && nodes + NodesOfElements(es) <= MAXIMUM_RECORD_NODES
  }

  ghost predicate MembersWithin(before: nat, ms: seq<Member>, depth: nat, nodes: nat) {
    && MembersFit(ms) && before + |ms| <= MAXIMUM_RECORD_MEMBERS
    && depth + DepthOfMembers(ms) - 1 <= MAXIMUM_RECORD_DEPTH && nodes + NodesOfMembers(ms) <= MAXIMUM_RECORD_NODES
  }

  /** What reading a value must give: it and what follows it, or that it is over a limit. */
  ghost function ReadAs(v: Value, rest: string, depth: nat, nodes: nat): Result<Parsed> {
    if Within(v, depth, nodes) then Ok(Parsed(v, rest, nodes + Nodes(v))) else Rejected(LimitExceeded)
  }

  lemma ReadAsIs(v: Value, rest: string, depth: nat, nodes: nat, ok: bool, after: nat)
    requires ok == Within(v, depth, nodes) && after == nodes + Nodes(v)
    ensures ReadAs(v, rest, depth, nodes) == if ok then Ok(Parsed(v, rest, after)) else Rejected(LimitExceeded)
  {
  }

  lemma ScalarWithin(v: Value, depth: nat, nodes: nat)
    requires v.Integer? || v.Text?
    ensures Within(v, depth, nodes) <==> Fits(v) && depth <= MAXIMUM_RECORD_DEPTH && nodes + 1 <= MAXIMUM_RECORD_NODES
    ensures Nodes(v) == 1
  {
  }

  lemma OverLimit(s: string, depth: nat, nodes: nat)
    requires depth > MAXIMUM_RECORD_DEPTH || nodes + 1 > MAXIMUM_RECORD_NODES
    ensures ValueAt(s, depth, nodes) == Rejected(LimitExceeded)
  {
  }

  lemma {:induction false} GapSkipped(gap: string, s: string)
    requires IsGap(gap) && (s == [] || !IsSpace(s[0]))
    ensures SkipSpace(gap + s) == s
  {
    if gap == [] {
      assert gap + s == s;
    } else {
      assert (gap + s)[1..] == gap[1..] + s;
      GapSkipped(gap[1..], s);
    }
  }

  lemma GapEnds(gap: string, s: string)
    requires IsGap(gap) && Ends(s)
    ensures Ends(gap + s)
  {
    if gap != [] {
      assert (gap + s)[0] == gap[0];
    } else {
      assert gap + s == s;
    }
  }

  lemma TreeStarts(t: Tree)
    ensures TreeText(t) != [] && !IsSpace(TreeText(t)[0]) && TreeText(t)[0] !in "]}"
  {
  }

  lemma LiteralReads(t: Tree, s: string, rest: string, depth: nat, nodes: nat)
    requires t.TNull? || t.TBoolean?
    requires s == TreeText(t) + rest && Ends(rest) && 1 <= depth
    ensures ValueAt(s, depth, nodes) == ReadAs(TreeValue(t), rest, depth, nodes)
  {
    TokenReads(TreeText(t), rest);
  }

  lemma NumberReads(token: string, number: Result<Value>, s: string, rest: string, depth: nat, nodes: nat)
    requires token != [] && (token[0] == '-' || IsDigit(token[0])) && s == token + rest
    requires Token(s) == token && s[|token|..] == rest && ReadNumber(token) == number
    requires depth <= MAXIMUM_RECORD_DEPTH && nodes + 1 <= MAXIMUM_RECORD_NODES
    ensures ValueAt(s, depth, nodes) ==
            if number.Rejected? then Rejected(number.reason) else Ok(Parsed(number.value, rest, nodes + 1))
  {
    assert s[0] == token[0];
    assert token != "null" && token != "true" && token != "false";
  }

  lemma TokenNumber(n: int)
    requires IsTree(TInteger(n))
    ensures ReadNumber(IntegerText(n)) == if Fits(Integer(n)) then Ok(Integer(n)) else Rejected(LimitExceeded)
  {
    IntegerTextIsToken(n);
  }

  lemma IntegerTreeReads(n: int, s: string, rest: string, depth: nat, nodes: nat)
    requires IsTree(TInteger(n)) && s == IntegerText(n) + rest && Ends(rest) && 1 <= depth
    ensures ValueAt(s, depth, nodes) == ReadAs(Integer(n), rest, depth, nodes)
  {
    var within := Within(Integer(n), depth, nodes);
    ScalarWithin(Integer(n), depth, nodes);
    ReadAsIs(Integer(n), rest, depth, nodes, within, nodes + 1);
    if depth <= MAXIMUM_RECORD_DEPTH && nodes + 1 <= MAXIMUM_RECORD_NODES {
      TokenReads(IntegerText(n), rest);
      TokenNumber(n);
      NumberReads(IntegerText(n), ReadNumber(IntegerText(n)), s, rest, depth, nodes);
    } else {
      OverLimit(s, depth, nodes);
    }
  }

  lemma NameReads(units: seq<Unit>, s: string, rest: string)
    requires AreText(units) && s == UnitsText(units) + ("\"" + rest)
    ensures ReadString(s) ==
            if IsName(UnitsValue(units)) then Ok(Scanned(UnitsValue(units), rest)) else Rejected(LimitExceeded)
  {
    UnitsRead(units, s, rest);
  }

  lemma QuoteReads(s: string, t: string, scanned: Result<Scanned>, depth: nat, nodes: nat)
    requires s == "\"" + t && ReadString(t) == scanned && depth <= MAXIMUM_RECORD_DEPTH && nodes + 1 <= MAXIMUM_RECORD_NODES
    ensures ValueAt(s, depth, nodes) ==
            if scanned.Rejected? then Rejected(scanned.reason)
            else Ok(Parsed(Text(scanned.value.text), scanned.value.rest, nodes + 1))
  {
    assert s[1..] == t;
  }

  lemma TextTreeReads(units: seq<Unit>, s: string, rest: string, depth: nat, nodes: nat)
    requires AreText(units) && s == "\"" + UnitsText(units) + "\"" + rest && 1 <= depth
    ensures ValueAt(s, depth, nodes) == ReadAs(Text(UnitsValue(units)), rest, depth, nodes)
  {
    var q, t := "\"", UnitsText(units) + ("\"" + rest);
    Assoc(q + UnitsText(units), q, rest);
    Assoc(q, UnitsText(units), q + rest);
    NameReads(units, t, rest);
    QuotedTextReads(s, t, UnitsValue(units), rest, IsName(UnitsValue(units)), depth, nodes);
  }

  lemma QuotedTextReads(s: string, t: string, text: string, rest: string, named: bool, depth: nat, nodes: nat)
    requires s == "\"" + t && ReadString(t) == if named then Ok(Scanned(text, rest)) else Rejected(LimitExceeded)
    requires named == IsName(text) && 1 <= depth
    ensures ValueAt(s, depth, nodes) == ReadAs(Text(text), rest, depth, nodes)
  {
    var within := Within(Text(text), depth, nodes);
    ScalarWithin(Text(text), depth, nodes);
    ReadAsIs(Text(text), rest, depth, nodes, within, nodes + 1);
    if depth <= MAXIMUM_RECORD_DEPTH && nodes + 1 <= MAXIMUM_RECORD_NODES {
      QuoteReads(s, t, ReadString(t), depth, nodes);
    } else {
      OverLimit(s, depth, nodes);
    }
  }

  // ---- one unfolding of each list reader, over any strings

  lemma SkippedTwice(s: string)
    ensures SkipSpace(SkipSpace(s)) == SkipSpace(s)
  {
  }

  ghost function ReadElementsAs(es: seq<Value>, rest: string, depth: nat, nodes: nat): Result<ParsedElements> {
    if ElementsWithin(es, depth, nodes) then Ok(ParsedElements(es, rest, nodes + NodesOfElements(es))) else Rejected(LimitExceeded)
  }

  lemma ElementsSkip(s: string, depth: nat, nodes: nat)
    ensures ElementsAt(SkipSpace(s), depth, nodes) == ElementsAt(s, depth, nodes)
  {
    SkippedTwice(s);
  }

  lemma ElementsRefused(s: string, inner: string, depth: nat, nodes: nat, why: Rejection)
    requires SkipSpace(s) == inner && ValueAt(inner, depth, nodes) == Rejected(why)
    ensures ElementsAt(s, depth, nodes) == Rejected(why)
  {
  }

  lemma LastElement(s: string, inner: string, tail: string, rest: string, depth: nat, nodes: nat, v: Value, nodes': nat)
    requires SkipSpace(s) == inner && ValueAt(inner, depth, nodes) == Ok(Parsed(v, tail, nodes'))
    requires SkipSpace(tail) == "]" + rest
    ensures ElementsAt(s, depth, nodes) == Ok(ParsedElements([v], rest, nodes'))
  {
    assert ("]" + rest)[1..] == rest;
  }

  lemma MoreElements(s: string, inner: string, tail: string, more: string, depth: nat, nodes: nat, v: Value, nodes': nat)
    requires SkipSpace(s) == inner && ValueAt(inner, depth, nodes) == Ok(Parsed(v, tail, nodes'))
    requires SkipSpace(tail) == "," + more
    ensures ElementsAt(s, depth, nodes) ==
      match ElementsAt(more, depth, nodes')
      case Rejected(why) => Rejected(why)
      case Ok(list) => Ok(ParsedElements([v] + list.elements, list.rest, list.nodes))
  {
    assert ("," + more)[1..] == more;
  }

  lemma ElementsOf(v: Value, es: seq<Value>)
    ensures ElementsFit([v] + es) <==> Fits(v) && ElementsFit(es)
    ensures DepthOfElements([v] + es) == Max(Depth(v), DepthOfElements(es))
    ensures NodesOfElements([v] + es) == Nodes(v) + NodesOfElements(es)
    ensures ElementsFit([]) && DepthOfElements([]) == 0 && NodesOfElements([]) == 0
  {
    assert ([v] + es)[1..] == es;
  }

  lemma ElementsWithinParts(v: Value, es: seq<Value>, depth: nat, nodes: nat)
    requires 1 <= depth
    ensures ElementsWithin([v] + es, depth, nodes)
            <==> Within(v, depth, nodes) && (es == [] || ElementsWithin(es, depth, nodes + Nodes(v)))
    ensures NodesOfElements([v] + es) == Nodes(v) + NodesOfElements(es)
  {
    ElementsOf(v, es);
  }

  lemma ItemParts(before: string, text: string, after: string, closing: string, s: string)
    requires s == before + text + after + closing && text != [] && !IsSpace(text[0])
    requires IsGap(before) && IsGap(after) && Ends(closing) && closing != [] && !IsSpace(closing[0])
    ensures var tail := after + closing;
      SkipSpace(s) == text + tail && Ends(tail) && SkipSpace(tail) == closing
  {
    var tail := after + closing;
    assert s == before + (text + tail);
    GapSkipped(before, text + tail);
    GapSkipped(after, closing);
    GapEnds(after, closing);
  }

  lemma ItemsAhead(items: seq<Item>, s: string, rest: string) returns (more: string, closing: string)
    requires items != [] && s == ItemsText(items) + ("]" + rest)
    ensures more == ItemsText(items[1..]) + ("]" + rest)
    ensures closing == if |items| > 1 then "," + more else "]" + rest
    ensures s == items[0].before + TreeText(items[0].value) + items[0].after + closing
  {
    more := ItemsText(items[1..]) + ("]" + rest);
    closing := if |items| > 1 then "," + more else "]" + rest;
    var front := items[0].before + TreeText(items[0].value) + items[0].after;
    if |items| > 1 {
      Assoc(front, ",", ItemsText(items[1..]));
      Assoc(front, "," + ItemsText(items[1..]), "]" + rest);
      Assoc(",", ItemsText(items[1..]), "]" + rest);
    } else {
      assert items[1..] == [] && front + "" + "" == front;
    }
  }

  lemma {:induction false} ItemsRead(items: seq<Item>, s: string, rest: string, depth: nat, nodes: nat)
    requires AreItems(items) && items != [] && s == ItemsText(items) + ("]" + rest) && 1 <= depth
    ensures ElementsAt(s, depth, nodes) == ReadElementsAs(ItemValues(items), rest, depth, nodes)
    decreases items, 0
  {
    var v, es := TreeValue(items[0].value), ItemValues(items[1..]);
    var text := TreeText(items[0].value);
    var more, closing := ItemsAhead(items, s, rest);
    TreeStarts(items[0].value);
    ItemParts(items[0].before, text, items[0].after, closing, s);
    var tail := items[0].after + closing;
    TreeReads(items[0].value, text + tail, tail, depth, nodes);
    if |items| > 1 {
      ItemsRead(items[1..], more, rest, depth, nodes + Nodes(v));
    }
    var middle := nodes + Nodes(v);
    var first, others, last := Within(v, depth, nodes), ElementsWithin(es, depth, middle), middle + NodesOfElements(es);
    ReadAsIs(v, tail, depth, nodes, first, middle);
    ReadElementsAsIs(es, rest, depth, middle, others, last);
    ItemsStep(first, others, v, es, s, text + tail, tail, more, rest, depth, nodes, middle, last);
    ItemsTogether(v, es, rest, depth, nodes, first, others, middle, last);
    assert ItemValues(items) == [v] + es;
  }

  lemma ReadElementsAsIs(es: seq<Value>, rest: string, depth: nat, nodes: nat, ok: bool, after: nat)
    requires ok == ElementsWithin(es, depth, nodes) && after == nodes + NodesOfElements(es)
    ensures ReadElementsAs(es, rest, depth, nodes) ==
            if ok then Ok(ParsedElements(es, rest, after)) else Rejected(LimitExceeded)
  {
  }

  lemma ItemsTogether(
    v: Value, es: seq<Value>, rest: string, depth: nat, nodes: nat, first: bool, others: bool, middle: nat, last: nat)
    requires 1 <= depth && first == Within(v, depth, nodes) && middle == nodes + Nodes(v)
    requires others == ElementsWithin(es, depth, middle) && last == middle + NodesOfElements(es)
    ensures ReadElementsAs([v] + es, rest, depth, nodes) ==
      if first && (es == [] || others) then Ok(ParsedElements([v] + es, rest, if es == [] then middle else last))
      else Rejected(LimitExceeded)
  {
    ElementsWithinParts(v, es, depth, nodes);
  }

  /** The first element and the others, by the strings they are read from. */
  lemma ItemsStep(
    first: bool, others: bool, v: Value, es: seq<Value>, s: string, inner: string, tail: string, more: string, rest: string,
    depth: nat, nodes: nat, middle: nat, last: nat)
    requires SkipSpace(s) == inner
    requires ValueAt(inner, depth, nodes) == if first then Ok(Parsed(v, tail, middle)) else Rejected(LimitExceeded)
    requires SkipSpace(tail) == if es == [] then "]" + rest else "," + more
    requires es != [] ==> ElementsAt(more, depth, middle) ==
                          if others then Ok(ParsedElements(es, rest, last)) else Rejected(LimitExceeded)
    ensures ElementsAt(s, depth, nodes) ==
            if first && (es == [] || others) then Ok(ParsedElements([v] + es, rest, if es == [] then middle else last))
            else Rejected(LimitExceeded)
  {
    if !first {
      ElementsRefused(s, inner, depth, nodes, LimitExceeded);
    } else if es == [] {
      LastElement(s, inner, tail, rest, depth, nodes, v, middle);
      assert [v] + es == [v];
    } else {
      MoreElements(s, inner, tail, more, depth, nodes, v, middle);
    }
  }

  lemma EmptyArrayReads(gap: string, s: string, rest: string, depth: nat, nodes: nat)
    requires IsGap(gap) && s == "[" + (gap + ("]" + rest)) && 1 <= depth
    ensures ValueAt(s, depth, nodes) == ReadAs(Array([]), rest, depth, nodes)
  {
    GapSkipped(gap, "]" + rest);
    assert s[1..] == gap + ("]" + rest) && ("]" + rest)[1..] == rest;
    assert ParseArray(s[1..], depth, nodes + 1) == Ok(Parsed(Array([]), rest, nodes + 1));
  }

  lemma ArrayReadsAs(s: string, inner: string, es: seq<Value>, rest: string, depth: nat, nodes: nat)
    requires s == "[" + inner && es != [] && 1 <= depth
    requires SkipSpace(inner) != [] && SkipSpace(inner)[0] != ']'
    requires ElementsAt(inner, depth + 1, nodes + 1) == ReadElementsAs(es, rest, depth + 1, nodes + 1)
    ensures ValueAt(s, depth, nodes) == ReadAs(Array(es), rest, depth, nodes)
  {
    assert s[1..] == inner;
    ElementsSkip(inner, depth + 1, nodes + 1);
    if depth <= MAXIMUM_RECORD_DEPTH && nodes + 1 <= MAXIMUM_RECORD_NODES {
      assert ValueAt(s, depth, nodes) == ParseArray(inner, depth, nodes + 1);
    }
  }

  lemma ItemsStart(items: seq<Item>, closing: string)
    requires AreItems(items) && items != []
    ensures var rest := SkipSpace(ItemsText(items) + closing); rest != [] && rest[0] != ']'
  {
    var item := items[0];
    var separator := if |items| > 1 then "," else "";
    var text := TreeText(item.value);
    TreeStarts(item.value);
    Assoc(item.before + text, item.after, separator);
    Assoc(item.before + text, item.after + separator, ItemsText(items[1..]));
    Assoc(item.before + text, item.after + separator + ItemsText(items[1..]), closing);
    Assoc(item.before, text, item.after + separator + ItemsText(items[1..]) + closing);
    GapSkipped(item.before, text + (item.after + separator + ItemsText(items[1..]) + closing));
  }

  // ---- objects

  ghost function ReadMembersAs(before: seq<Member>, ms: seq<Member>, rest: string, depth: nat, nodes: nat): Result<ParsedMembers> {
    if MembersWithin(|before|, ms, depth, nodes) then Ok(ParsedMembers(before + ms, rest, nodes + NodesOfMembers(ms)))
    else Rejected(LimitExceeded)
  }

  lemma MembersSkip(s: string, depth: nat, nodes: nat)
    ensures MembersAt(SkipSpace(s), depth, nodes, []) == MembersAt(s, depth, nodes, [])
  {
    SkippedTwice(s);
  }

  lemma NameRefused(s: string, t: string, depth: nat, nodes: nat, before: seq<Member>, why: Rejection)
    requires ValidKeys(before) && DistinctKeys(before)
    requires SkipSpace(s) == "\"" + t && ReadString(t) == Rejected(why)
    ensures MembersAt(s, depth, nodes, before) == Rejected(why)
  {
    assert ("\"" + t)[1..] == t;
  }

  /** After a member's value: the closing brace, or the next member. */
  ghost function MembersOn(w: string, members: seq<Member>, depth: nat, nodes: nat): Result<ParsedMembers>
    requires ValidKeys(members) && DistinctKeys(members)
  {
    if w == [] then Rejected(MalformedInput)
    else if w[0] == '}' then Ok(ParsedMembers(members, w[1..], nodes))
    else if w[0] != ',' then Rejected(MalformedInput)
    else MembersAt(w[1..], depth, nodes, members)
  }

  lemma OneMoreName(before: seq<Member>, m: Member)
    requires ValidKeys(before) && DistinctKeys(before) && IsUtf8(m.key) && !HasKey(before, m.key)
    ensures ValidKeys(before + [m]) && DistinctKeys(before + [m])
  {
  }

  lemma NameRead(
    s: string, t: string, key: string, u: string, colon: string, value: string, depth: nat, nodes: nat, before: seq<Member>)
    requires ValidKeys(before) && DistinctKeys(before) && !HasKey(before, key)
    requires SkipSpace(s) == "\"" + t && ReadString(t) == Ok(Scanned(key, u))
    requires SkipSpace(u) == ":" + colon && SkipSpace(colon) == value
    ensures |before| >= MAXIMUM_RECORD_MEMBERS ==> MembersAt(s, depth, nodes, before) == Rejected(LimitExceeded)
    ensures |before| < MAXIMUM_RECORD_MEMBERS && ValueAt(value, depth, nodes).Rejected? ==>
      MembersAt(s, depth, nodes, before) == Rejected(ValueAt(value, depth, nodes).reason)
    ensures |before| < MAXIMUM_RECORD_MEMBERS && ValueAt(value, depth, nodes).Ok? ==>
      var head := ValueAt(value, depth, nodes).value;
      var longer := before + [Member(key, head.value)];
      ValidKeys(longer) && DistinctKeys(longer)
      && MembersAt(s, depth, nodes, before) == MembersOn(SkipSpace(head.rest), longer, depth, head.nodes)
  {
    assert ("\"" + t)[1..] == t && (":" + colon)[1..] == colon;
    if ValueAt(value, depth, nodes).Ok? {
      OneMoreName(before, Member(key, ValueAt(value, depth, nodes).value.value));
    }
  }

  lemma MembersOf(m: Member, ms: seq<Member>)
    ensures MembersFit([m] + ms) <==> IsName(m.key) && Fits(m.value) && MembersFit(ms)
    ensures DepthOfMembers([m] + ms) == Max(Depth(m.value), DepthOfMembers(ms))
    ensures NodesOfMembers([m] + ms) == Nodes(m.value) + NodesOfMembers(ms)
    ensures MembersFit([]) && DepthOfMembers([]) == 0 && NodesOfMembers([]) == 0
  {
    assert ([m] + ms)[1..] == ms;
  }

  lemma MembersWithinParts(before: nat, m: Member, ms: seq<Member>, depth: nat, nodes: nat)
    requires 1 <= depth
    ensures MembersWithin(before, [m] + ms, depth, nodes) <==>
      && IsName(m.key) && before < MAXIMUM_RECORD_MEMBERS && Within(m.value, depth, nodes)
      && (ms == [] || MembersWithin(before + 1, ms, depth, nodes + Nodes(m.value)))
    ensures NodesOfMembers([m] + ms) == Nodes(m.value) + NodesOfMembers(ms)
  {
    MembersOf(m, ms);
  }

  lemma RightNested(a: string, u: string, b: string, d: string, v: string, e: string, z: string)
    ensures a + "\"" + u + "\"" + b + ":" + d + v + e + z
            == a + ("\"" + (u + ("\"" + (b + (":" + (d + (v + (e + z))))))))
  {
    var q := "\"";
    Assoc(a + q + u + q + b + ":" + d + v, e, z);
    Assoc(a + q + u + q + b + ":" + d, v, e + z);
    Assoc(a + q + u + q + b + ":", d, v + (e + z));
    Assoc(a + q + u + q + b, ":", d + (v + (e + z)));
    Assoc(a + q + u + q, b, ":" + (d + (v + (e + z))));
    Assoc(a + q + u, q, b + (":" + (d + (v + (e + z)))));
    Assoc(a + q, u, q + (b + (":" + (d + (v + (e + z))))));
    Assoc(a, q, u + (q + (b + (":" + (d + (v + (e + z)))))));
  }

  lemma TextOfField(f: Field, z: string)
    ensures FieldText(f) + z
            == f.before + ("\"" + (UnitsText(f.name) + ("\"" + (f.beforeColon + (":" + (f.afterColon + (TreeText(f.value) + (f.after + z))))))))
  {
    RightNested(f.before, UnitsText(f.name), f.beforeColon, f.afterColon, TreeText(f.value), f.after, z);
  }

  /** The pieces of a field and what follows it, as the reader meets them. */
  lemma FieldParts(f: Field, closing: string, s: string) returns (t: string, u: string, colon: string, tail: string)
    requires IsField(f) && s == FieldText(f) + closing && Ends(closing) && closing != [] && !IsSpace(closing[0])
    ensures SkipSpace(s) == "\"" + t && t == UnitsText(f.name) + ("\"" + u)
    ensures SkipSpace(u) == ":" + colon && SkipSpace(colon) == TreeText(f.value) + tail
    ensures tail == f.after + closing && SkipSpace(tail) == closing
  {
    tail := f.after + closing;
    colon := f.afterColon + (TreeText(f.value) + tail);
    u := f.beforeColon + (":" + colon);
    t := UnitsText(f.name) + ("\"" + u);
    TextOfField(f, closing);
    GapSkipped(f.before, "\"" + t);
    GapSkipped(f.beforeColon, ":" + colon);
    TreeStarts(f.value);
    GapSkipped(f.afterColon, TreeText(f.value) + tail);
    GapSkipped(f.after, closing);
  }

  lemma {:induction false} FieldKeysValid(fields: seq<Field>)
    requires AreFields(fields)
    ensures ValidKeys(FieldValues(fields))
  {
    if fields != [] {
      FieldKeysValid(fields[1..]);
    }
  }

  lemma FirstIsFresh(before: seq<Member>, m: Member, ms: seq<Member>)
    requires DistinctKeys(before + ([m] + ms))
    ensures DistinctKeys(before) && !HasKey(before, m.key) && DistinctKeys(before + [m] + ms)
  {
    var all := before + ([m] + ms);
    assert before + [m] + ms == all;
    forall i | 0 <= i < |before| ensures before[i].key != m.key {
      assert all[i] == before[i] && all[|before|] == m;
    }
    forall i, j | 0 <= i < j < |before| ensures before[i].key != before[j].key {
      assert all[i] == before[i] && all[j] == before[j];
    }
  }

  lemma FieldsAhead(fields: seq<Field>, s: string, rest: string) returns (more: string, closing: string)
    requires fields != [] && s == FieldsText(fields) + ("}" + rest)
    ensures more == FieldsText(fields[1..]) + ("}" + rest)
    ensures closing == if |fields| > 1 then "," + more else "}" + rest
    ensures s == FieldText(fields[0]) + closing
  {
    more := FieldsText(fields[1..]) + ("}" + rest);
    closing := if |fields| > 1 then "," + more else "}" + rest;
    var front := FieldText(fields[0]);
    if |fields| > 1 {
      Assoc(front, ",", FieldsText(fields[1..]));
      Assoc(front, "," + FieldsText(fields[1..]), "}" + rest);
      Assoc(",", FieldsText(fields[1..]), "}" + rest);
    } else {
      assert fields[1..] == [] && front + "" + "" == front;
    }
  }

  lemma {:induction false} FieldsRead(fields: seq<Field>, s: string, rest: string, depth: nat, nodes: nat, before: seq<Member>)
    requires AreFields(fields) && fields != [] && s == FieldsText(fields) + ("}" + rest) && 1 <= depth
    requires ValidKeys(before) && DistinctKeys(before) && DistinctKeys(before + FieldValues(fields))
    ensures MembersAt(s, depth, nodes, before) == ReadMembersAs(before, FieldValues(fields), rest, depth, nodes)
    decreases fields, 0
  {
    var f := fields[0];
    var m := Member(UnitsValue(f.name), TreeValue(f.value));
    var ms := FieldValues(fields[1..]);
    var more, closing := FieldsAhead(fields, s, rest);
    FirstIsFresh(before, m, ms);
    OneMoreName(before, m);
    var middle := nodes + Nodes(m.value);
    var longer := before + [m];
    var tail := f.after + closing;
    GapEnds(f.after, closing);
    TreeReads(f.value, TreeText(f.value) + tail, tail, depth, nodes);
    if |fields| > 1 {
      FieldsRead(fields[1..], more, rest, depth, middle, longer);
    }
    var first, others, last := Within(m.value, depth, nodes), MembersWithin(|longer|, ms, depth, middle), middle + NodesOfMembers(ms);
    ReadAsIs(m.value, tail, depth, nodes, first, middle);
    ReadMembersAsIs(longer, ms, rest, depth, middle, others, last);
    FieldReads(f, IsName(m.key), first, others, m, ms, s, closing, more, rest, depth, nodes, middle, last, before, longer);
    FieldsTogether(m, ms, rest, depth, nodes, before, first, others, middle, last);
    assert FieldValues(fields) == [m] + ms;
  }

  /** The first field and the others, from what the reader makes of its value and of them. */
  lemma FieldReads(
    f: Field, named: bool, first: bool, others: bool, m: Member, ms: seq<Member>, s: string, closing: string, more: string,
    rest: string, depth: nat, nodes: nat, middle: nat, last: nat, before: seq<Member>, longer: seq<Member>)
    requires IsField(f) && s == FieldText(f) + closing && closing == if ms == [] then "}" + rest else "," + more
    requires m.key == UnitsValue(f.name) && named == IsName(m.key)
    requires ValidKeys(before) && DistinctKeys(before) && !HasKey(before, m.key)
    requires longer == before + [m] && ValidKeys(longer) && DistinctKeys(longer)
    requires var tail := f.after + closing;
      ValueAt(TreeText(f.value) + tail, depth, nodes) == if first then Ok(Parsed(m.value, tail, middle)) else Rejected(LimitExceeded)
    requires ms != [] ==> MembersAt(more, depth, middle, longer) ==
                          if others then Ok(ParsedMembers(longer + ms, rest, last)) else Rejected(LimitExceeded)
    ensures MembersAt(s, depth, nodes, before) ==
            if named && |before| < MAXIMUM_RECORD_MEMBERS && first && (ms == [] || others)
            then Ok(ParsedMembers(longer + ms, rest, if ms == [] then middle else last))
            else Rejected(LimitExceeded)
  {
    var t, u, colon, tail := FieldParts(f, closing, s);
    NameReads(f.name, t, u);
    FieldsStep(named, first, others, m, ms, s, t, u, colon, TreeText(f.value) + tail, tail, more, rest, depth, nodes,
               middle, last, before, longer);
  }

  lemma ReadMembersAsIs(before: seq<Member>, ms: seq<Member>, rest: string, depth: nat, nodes: nat, ok: bool, after: nat)
    requires ok == MembersWithin(|before|, ms, depth, nodes) && after == nodes + NodesOfMembers(ms)
    ensures ReadMembersAs(before, ms, rest, depth, nodes) ==
            if ok then Ok(ParsedMembers(before + ms, rest, after)) else Rejected(LimitExceeded)
  {
  }

  lemma FieldsTogether(
    m: Member, ms: seq<Member>, rest: string, depth: nat, nodes: nat, before: seq<Member>, first: bool, others: bool,
    middle: nat, last: nat)
    requires 1 <= depth && first == Within(m.value, depth, nodes) && middle == nodes + Nodes(m.value)
    requires others == MembersWithin(|before| + 1, ms, depth, middle) && last == middle + NodesOfMembers(ms)
    ensures ReadMembersAs(before, [m] + ms, rest, depth, nodes) ==
      if IsName(m.key) && |before| < MAXIMUM_RECORD_MEMBERS && first && (ms == [] || others)
      then Ok(ParsedMembers(before + [m] + ms, rest, if ms == [] then middle else last))
      else Rejected(LimitExceeded)
  {
    MembersWithinParts(|before|, m, ms, depth, nodes);
    assert before + ([m] + ms) == before + [m] + ms;
  }

  /** The first member and the others, by the strings they are read from. */
  lemma FieldsStep(
    named: bool, first: bool, others: bool, m: Member, ms: seq<Member>, s: string, t: string, u: string, colon: string,
    value: string, tail: string, more: string, rest: string, depth: nat, nodes: nat, middle: nat, last: nat,
    before: seq<Member>, longer: seq<Member>)
    requires ValidKeys(before) && DistinctKeys(before) && !HasKey(before, m.key)
    requires longer == before + [m] && ValidKeys(longer) && DistinctKeys(longer)
    requires SkipSpace(s) == "\"" + t && ReadString(t) == if named then Ok(Scanned(m.key, u)) else Rejected(LimitExceeded)
    requires SkipSpace(u) == ":" + colon && SkipSpace(colon) == value
    requires ValueAt(value, depth, nodes) == if first then Ok(Parsed(m.value, tail, middle)) else Rejected(LimitExceeded)
    requires SkipSpace(tail) == if ms == [] then "}" + rest else "," + more
    requires ms != [] ==> MembersAt(more, depth, middle, longer) ==
                          if others then Ok(ParsedMembers(longer + ms, rest, last)) else Rejected(LimitExceeded)
    ensures MembersAt(s, depth, nodes, before) ==
            if named && |before| < MAXIMUM_RECORD_MEMBERS && first && (ms == [] || others)
            then Ok(ParsedMembers(longer + ms, rest, if ms == [] then middle else last))
            else Rejected(LimitExceeded)
  {
    if !named {
      NameRefused(s, t, depth, nodes, before, LimitExceeded);
    } else {
      NameRead(s, t, m.key, u, colon, value, depth, nodes, before);
      assert m == Member(m.key, m.value);
      assert ("}" + rest)[1..] == rest && ("," + more)[1..] == more && longer + [] == longer;
    }
  }

  lemma {:induction false} MembersFitEach(ms: seq<Member>)
    ensures MembersFit(ms) <==> forall i | 0 <= i < |ms| :: IsName(ms[i].key) && Fits(ms[i].value)
  {
    if ms != [] {
      MembersFitEach(ms[1..]);
      assert forall i | 0 < i < |ms| :: ms[i] == ms[1..][i - 1];
      assert forall i | 0 <= i < |ms| - 1 :: ms[1..][i] == ms[i + 1];
    }
  }

  lemma SortedFitAlike(ms: seq<Member>)
    requires ValidKeys(ms) && DistinctKeys(ms)
    ensures MembersFit(Sorted(ms)) <==> MembersFit(ms)
  {
    SortedAscends(ms);
    SortedMeasures(ms);
    MembersFitEach(ms);
    MembersFitEach(Sorted(ms));
    if MembersFit(Sorted(ms)) {
      forall i | 0 <= i < |ms| ensures IsName(ms[i].key) && Fits(ms[i].value) {
        SameMembers(ms, Sorted(ms), ms[i]);
        var j :| 0 <= j < |Sorted(ms)| && Sorted(ms)[j] == ms[i];
      }
    }
  }

  lemma ObjectWithin(ms: seq<Member>, depth: nat, nodes: nat)
    requires ValidKeys(ms) && DistinctKeys(ms) && ms != [] && 1 <= depth
    ensures Within(MakeObject(ms), depth, nodes) <==> MembersWithin(0, ms, depth + 1, nodes + 1)
    ensures Nodes(MakeObject(ms)) == 1 + NodesOfMembers(ms) && Depth(MakeObject(ms)) >= 1
  {
    SortedAscends(ms);
    SortedMeasures(ms);
    SortedFitAlike(ms);
  }

  lemma EmptyObjectReads(gap: string, s: string, rest: string, depth: nat, nodes: nat)
    requires IsGap(gap) && s == "{" + (gap + ("}" + rest)) && 1 <= depth
    ensures ValueAt(s, depth, nodes) == ReadAs(MakeObject([]), rest, depth, nodes)
  {
    GapSkipped(gap, "}" + rest);
    assert s[1..] == gap + ("}" + rest) && ("}" + rest)[1..] == rest;
    assert ParseObject(s[1..], depth, nodes + 1) == Ok(Parsed(MakeObject([]), rest, nodes + 1));
    assert MakeObject([]) == Object([]);
  }

  lemma BraceReads(s: string, inner: string, list: Result<ParsedMembers>, depth: nat, nodes: nat)
    requires s == "{" + inner && depth <= MAXIMUM_RECORD_DEPTH && nodes + 1 <= MAXIMUM_RECORD_NODES
    requires SkipSpace(inner) != [] && SkipSpace(inner)[0] != '}' && MembersAt(inner, depth + 1, nodes + 1, []) == list
    ensures ValueAt(s, depth, nodes) ==
            if list.Rejected? then Rejected(list.reason)
            else Ok(Parsed(MakeObject(list.value.members), list.value.rest, list.value.nodes))
  {
    assert s[1..] == inner;
    MembersSkip(inner, depth + 1, nodes + 1);
    assert ValueAt(s, depth, nodes) == ParseObject(inner, depth, nodes + 1);
  }

  lemma ObjectReadsAs(s: string, inner: string, ms: seq<Member>, rest: string, depth: nat, nodes: nat)
    requires s == "{" + inner && ms != [] && ValidKeys(ms) && DistinctKeys(ms) && 1 <= depth
    requires SkipSpace(inner) != [] && SkipSpace(inner)[0] != '}'
    requires MembersAt(inner, depth + 1, nodes + 1, []) == ReadMembersAs([], ms, rest, depth + 1, nodes + 1)
    ensures ValueAt(s, depth, nodes) == ReadAs(MakeObject(ms), rest, depth, nodes)
  {
    var v := MakeObject(ms);
    var inside, within := MembersWithin(0, ms, depth + 1, nodes + 1), Within(v, depth, nodes);
    ReadMembersAsIs([], ms, rest, depth + 1, nodes + 1, inside, nodes + 1 + NodesOfMembers(ms));
    ObjectWithin(ms, depth, nodes);
    ReadAsIs(v, rest, depth, nodes, within, nodes + 1 + NodesOfMembers(ms));
    assert [] + ms == ms;
    if depth <= MAXIMUM_RECORD_DEPTH && nodes + 1 <= MAXIMUM_RECORD_NODES {
      BraceReads(s, inner, MembersAt(inner, depth + 1, nodes + 1, []), depth, nodes);
    }
  }

  lemma FieldsStart(fields: seq<Field>, closing: string)
    requires AreFields(fields) && fields != []
    ensures var rest := SkipSpace(FieldsText(fields) + closing); rest != [] && rest[0] != '}'
  {
    var f := fields[0];
    var separator := if |fields| > 1 then "," else "";
    Assoc(FieldText(f), separator, FieldsText(fields[1..]));
    Assoc(FieldText(f), separator + FieldsText(fields[1..]), closing);
    TextOfField(f, separator + FieldsText(fields[1..]) + closing);
    QuoteSkipped(f.before, FieldText(f) + (separator + FieldsText(fields[1..]) + closing));
  }

  lemma QuoteSkipped(gap: string, s: string)
    requires IsGap(gap) && |gap| < |s| && s[..|gap|] == gap && s[|gap|] == '"'
    ensures SkipSpace(s) != [] && SkipSpace(s)[0] == '"'
  {
    assert s == gap + s[|gap|..];
    GapSkipped(gap, s[|gap|..]);
  }

  lemma Bracketed(open: string, inside: string, close: string, rest: string)
    ensures open + inside + close + rest == open + (inside + (close + rest))
  {
  }

  lemma {:induction false} ArrayTreeReads(gap: string, items: seq<Item>, s: string, rest: string, depth: nat, nodes: nat)
    requires IsGap(gap) && AreItems(items) && s == TreeText(TArray(gap, items)) + rest && 1 <= depth
    ensures ValueAt(s, depth, nodes) == ReadAs(Array(ItemValues(items)), rest, depth, nodes)
    decreases items, 1
  {
    if items == [] {
      Bracketed("[", gap, "]", rest);
      EmptyArrayReads(gap, s, rest, depth, nodes);
    } else {
      var inner := ItemsText(items) + ("]" + rest);
      Bracketed("[", ItemsText(items), "]", rest);
      ItemsStart(items, "]" + rest);
      ItemsRead(items, inner, rest, depth + 1, nodes + 1);
      ArrayReadsAs(s, inner, ItemValues(items), rest, depth, nodes);
    }
  }

  lemma {:induction false} ObjectTreeReads(gap: string, fields: seq<Field>, s: string, rest: string, depth: nat, nodes: nat)
    requires IsGap(gap) && AreFields(fields) && DistinctKeys(FieldValues(fields))
    requires s == TreeText(TObject(gap, fields)) + rest && 1 <= depth
    ensures ValueAt(s, depth, nodes) == ReadAs(MakeObject(FieldValues(fields)), rest, depth, nodes)
    decreases fields, 2
  {
    if fields == [] {
      Bracketed("{", gap, "}", rest);
      EmptyObjectReads(gap, s, rest, depth, nodes);
    } else {
      Bracketed("{", FieldsText(fields), "}", rest);
      FilledObjectTreeReads(fields, FieldValues(fields), s, FieldsText(fields) + ("}" + rest), rest, depth, nodes);
    }
  }

  lemma {:induction false} FilledObjectTreeReads(
    fields: seq<Field>, ms: seq<Member>, s: string, inner: string, rest: string, depth: nat, nodes: nat)
    requires AreFields(fields) && fields != [] && ms == FieldValues(fields) && DistinctKeys(ms) && 1 <= depth
    requires s == "{" + inner && inner == FieldsText(fields) + ("}" + rest)
    ensures ValueAt(s, depth, nodes) == ReadAs(MakeObject(ms), rest, depth, nodes)
    decreases fields, 1
  {
    FieldsStart(fields, "}" + rest);
    FieldKeysValid(fields);
    assert [] + ms == ms;
    FieldsRead(fields, inner, rest, depth + 1, nodes + 1, []);
    ObjectReadsAs(s, inner, ms, rest, depth, nodes);
  }

  /** Every tree reads as what it means, or is refused for a limit it exceeds. */
  lemma {:induction false} TreeReads(t: Tree, s: string, rest: string, depth: nat, nodes: nat)
    requires IsTree(t) && s == TreeText(t) + rest && Ends(rest) && 1 <= depth
    ensures ValueAt(s, depth, nodes) == ReadAs(TreeValue(t), rest, depth, nodes)
    decreases t, 1
  {
    match t
    case TNull => LiteralReads(t, s, rest, depth, nodes);
    case TBoolean(_) => LiteralReads(t, s, rest, depth, nodes);
    case TInteger(n) => IntegerTreeReads(n, s, rest, depth, nodes);
    case TText(units) => TextTreeReads(units, s, rest, depth, nodes);
    case TArray(gap, items) => ArrayTreeReads(gap, items, s, rest, depth, nodes);
    case TObject(gap, fields) => ObjectTreeReads(gap, fields, s, rest, depth, nodes);
  }

  // ---- whatever is read is the text of a tree

  lemma {:induction false} SkippedIsGap(s: string) returns (gap: string)
    ensures IsGap(gap) && s == gap + SkipSpace(s)
  {
    if s != [] && IsSpace(s[0]) {
      var more := SkippedIsGap(s[1..]);
      gap := [s[0]] + more;
      assert s == [s[0]] + s[1..];
      Assoc([s[0]], more, SkipSpace(s));
    } else {
      gap := [];
      assert s == [] + s;
    }
  }

  lemma StringTree(s: string, scanned: Scanned) returns (units: seq<Unit>)
    requires s != [] && s[0] == '"' && ReadString(s[1..]) == Ok(scanned)
    ensures AreText(units) && s == TreeText(TText(units)) + scanned.rest && UnitsValue(units) == scanned.text
  {
    units := CharsAreUnits(s[1..], scanned);
    var q := "\"";
    assert s == q + s[1..];
    Assoc(q, UnitsText(units), q + scanned.rest);
    Assoc(q + UnitsText(units), q, scanned.rest);
  }

  lemma TokenTree(s: string, nodes: nat, p: Parsed) returns (t: Tree)
    requires s != [] && ParseToken(s, nodes) == Ok(p)
    ensures IsTree(t) && s == TreeText(t) + p.rest && TreeValue(t) == p.value
  {
    var token := Token(s);
    assert s == token + s[|token|..];
    if token == "null" {
      t := TNull;
    } else if token == "true" || token == "false" {
      t := TBoolean(token == "true");
    } else {
      IntegerTokensAreCanonical(token);
      t := TInteger(TokenValue(token));
    }
  }

  lemma ElementsUnfold(s: string, depth: nat, nodes: nat, list: ParsedElements) returns (inner: string, head: Parsed, w: string)
    requires ElementsAt(s, depth, nodes) == Ok(list)
    ensures inner == SkipSpace(s) && |inner| <= |s| && ValueAt(inner, depth, nodes) == Ok(head)
    ensures w == SkipSpace(head.rest) && w != [] && |w| < |s|
    ensures if w[0] == ']' then list.elements == [head.value] && list.rest == w[1..]
            else w[0] == ',' && exists tail :: ElementsAt(w[1..], depth, head.nodes) == Ok(tail)
                                               && list.elements == [head.value] + tail.elements && list.rest == tail.rest
  {
    inner := SkipSpace(s);
    head := ParseValue(inner, depth, nodes).value;
    w := SkipSpace(head.rest);
    if w[0] != ']' {
      assert ElementsAt(w[1..], depth, head.nodes) == Ok(ParseElements(w[1..], depth, head.nodes).value);
    }
  }

  lemma OneItemText(item: Item)
    ensures ItemsText([item]) == item.before + TreeText(item.value) + item.after
  {
    assert [item][1..] == [];
    var text := item.before + TreeText(item.value) + item.after;
    assert text + "" + "" == text;
  }

  lemma MoreItemsText(item: Item, more: seq<Item>)
    requires more != []
    ensures ItemsText([item] + more) == item.before + TreeText(item.value) + item.after + "," + ItemsText(more)
  {
    assert ([item] + more)[1..] == more;
  }

  /** Before, value, after and what closes, put together again. */
  lemma Reassembled(s: string, before: string, inner: string, text: string, rest: string, after: string, w: string)
    requires s == before + inner && inner == text + rest && rest == after + w
    ensures s == before + text + after + w
  {
    Assoc(before, text, after + w);
    Assoc(before + text, after, w);
  }

  lemma {:induction false} ItemsTree(s: string, depth: nat, nodes: nat, list: ParsedElements) returns (items: seq<Item>)
    requires ElementsAt(s, depth, nodes) == Ok(list)
    ensures AreItems(items) && items != [] && s == ItemsText(items) + ("]" + list.rest)
    ensures ItemValues(items) == list.elements
    decreases |s|, 1
  {
    var inner, head, w := ElementsUnfold(s, depth, nodes, list);
    var before := SkippedIsGap(s);
    var after := SkippedIsGap(head.rest);
    var t := ValueTree(inner, depth, nodes, head);
    var item := Item(before, t, after);
    Reassembled(s, before, inner, TreeText(t), head.rest, after, w);
    if w[0] == ']' {
      items := [item];
      OneItemText(item);
      assert w == "]" + list.rest && items[1..] == [];
    } else {
      var tail :| ElementsAt(w[1..], depth, head.nodes) == Ok(tail)
                  && list.elements == [head.value] + tail.elements && list.rest == tail.rest;
      var more := ItemsTree(w[1..], depth, head.nodes, tail);
      items := [item] + more;
      MoreItemsText(item, more);
      assert items[1..] == more && w == "," + w[1..];
      var front := before + TreeText(t) + after;
      Assoc(front, ",", w[1..]);
      Assoc(front + ",", ItemsText(more), "]" + list.rest);
    }
  }

  lemma MembersUnfold(s: string, depth: nat, nodes: nat, before: seq<Member>, list: ParsedMembers)
    returns (t: string, key: string, u: string, colon: string, value: string, head: Parsed, w: string)
    requires ValidKeys(before) && DistinctKeys(before) && MembersAt(s, depth, nodes, before) == Ok(list)
    ensures SkipSpace(s) == "\"" + t && ReadString(t) == Ok(Scanned(key, u))
    ensures SkipSpace(u) == ":" + colon && SkipSpace(colon) == value && |value| < |s|
    ensures ValueAt(value, depth, nodes) == Ok(head) && w == SkipSpace(head.rest) && w != [] && |w| < |s|
    ensures var longer := before + [Member(key, head.value)];
      && ValidKeys(longer) && DistinctKeys(longer)
      && if w[0] == '}' then list.members == longer && list.rest == w[1..]
         else w[0] == ',' && MembersAt(w[1..], depth, head.nodes, longer) == Ok(list)
  {
    var quoted := SkipSpace(s);
    t := quoted[1..];
    var name := ReadString(t).value;
    key, u := name.text, name.rest;
    var after := SkipSpace(u);
    colon := after[1..];
    value := SkipSpace(colon);
    head := ParseValue(value, depth, nodes).value;
    w := SkipSpace(head.rest);
    OneMoreName(before, Member(key, head.value));
    assert quoted == "\"" + t && after == ":" + colon;
  }

  lemma OneFieldText(f: Field)
    ensures FieldsText([f]) == FieldText(f)
  {
    assert [f][1..] == [];
    assert FieldText(f) + "" + "" == FieldText(f);
  }

  lemma MoreFieldsText(f: Field, more: seq<Field>)
    requires more != []
    ensures FieldsText([f] + more) == FieldText(f) + "," + FieldsText(more)
  {
    assert ([f] + more)[1..] == more;
  }

  /** One member as a field of the tree. */
  lemma {:induction false} FieldTree(
    s: string, t: string, key: string, u: string, colon: string, value: string, head: Parsed, w: string, depth: nat, nodes: nat)
    returns (f: Field)
    requires SkipSpace(s) == "\"" + t && ReadString(t) == Ok(Scanned(key, u))
    requires SkipSpace(u) == ":" + colon && SkipSpace(colon) == value
    requires ValueAt(value, depth, nodes) == Ok(head) && w == SkipSpace(head.rest)
    ensures IsField(f) && UnitsValue(f.name) == key && TreeValue(f.value) == head.value && s == FieldText(f) + w
    decreases |value|, 1
  {
    var before := SkippedIsGap(s);
    var beforeColon := SkippedIsGap(u);
    var afterColon := SkippedIsGap(colon);
    var after := SkippedIsGap(head.rest);
    var units := CharsAreUnits(t, Scanned(key, u));
    var tree := ValueTree(value, depth, nodes, head);
    f := Field(before, units, beforeColon, afterColon, tree, after);
    TextOfField(f, w);
  }

  lemma FieldValuesCons(f: Field, more: seq<Field>, before: seq<Member>, m: Member)
    requires m == Member(UnitsValue(f.name), TreeValue(f.value))
    ensures before + FieldValues([f] + more) == before + [m] + FieldValues(more)
    ensures AreFields([f] + more) <==> IsField(f) && AreFields(more)
  {
    assert ([f] + more)[1..] == more;
  }

  lemma MoreFields(s: string, f: Field, more: seq<Field>, w: string, rest: string)
    requires more != [] && s == FieldText(f) + w && w != [] && w == "," + w[1..] && w[1..] == FieldsText(more) + ("}" + rest)
    ensures s == FieldsText([f] + more) + ("}" + rest)
  {
    MoreFieldsText(f, more);
    Assoc(FieldText(f), ",", w[1..]);
    Assoc(FieldText(f) + ",", FieldsText(more), "}" + rest);
  }

  lemma {:induction false} FieldsTree(s: string, depth: nat, nodes: nat, before: seq<Member>, list: ParsedMembers)
    returns (fields: seq<Field>)
    requires ValidKeys(before) && DistinctKeys(before) && MembersAt(s, depth, nodes, before) == Ok(list)
    ensures AreFields(fields) && fields != [] && s == FieldsText(fields) + ("}" + list.rest)
    ensures list.members == before + FieldValues(fields)
    decreases |s|, 2
  {
    var t, key, u, colon, value, head, w := MembersUnfold(s, depth, nodes, before, list);
    var f := FieldTree(s, t, key, u, colon, value, head, w, depth, nodes);
    var m := Member(key, head.value);
    assert w == [w[0]] + w[1..];
    if w[0] == '}' {
      fields := [f];
      OneFieldText(f);
      assert fields == [f] + [];
      FieldValuesCons(f, [], before, m);
      assert before + [m] + [] == before + [m];
    } else {
      var more := FieldsTree(w[1..], depth, head.nodes, before + [m], list);
      fields := [f] + more;
      MoreFields(s, f, more, w, list.rest);
      FieldValuesCons(f, more, before, m);
    }
  }

  lemma EmptyTrees(open: string, gap: string, u: string, close: string)
    requires u != [] && u == close + u[1..]
    ensures open + (gap + u) == open + gap + close + u[1..]
  {
    Bracketed(open, gap, close, u[1..]);
  }

  lemma ArrayUnfold(inner: string, depth: nat, nodes: nat, p: Parsed) returns (list: ParsedElements)
    requires ParseArray(inner, depth, nodes) == Ok(p) && !(SkipSpace(inner) != [] && SkipSpace(inner)[0] == ']')
    ensures ElementsAt(inner, depth + 1, nodes) == Ok(list) && p == Parsed(Array(list.elements), list.rest, list.nodes)
  {
    ElementsSkip(inner, depth + 1, nodes);
    list := ParseElements(SkipSpace(inner), depth + 1, nodes).value;
  }

  lemma {:induction false} ArrayTree(s: string, inner: string, depth: nat, nodes: nat, p: Parsed) returns (t: Tree)
    requires s == "[" + inner && ParseArray(inner, depth, nodes) == Ok(p)
    ensures IsTree(t) && s == TreeText(t) + p.rest && TreeValue(t) == p.value
    decreases |inner|, 3
  {
    var u := SkipSpace(inner);
    if u != [] && u[0] == ']' {
      t := EmptyArrayTree(s, inner, depth, nodes, p);
    } else {
      var list := ArrayUnfold(inner, depth, nodes, p);
      var items := ItemsTree(inner, depth + 1, nodes, list);
      t := TArray("", items);
      Bracketed("[", ItemsText(items), "]", list.rest);
    }
  }

  lemma EmptyArrayTree(s: string, inner: string, depth: nat, nodes: nat, p: Parsed) returns (t: Tree)
    requires s == "[" + inner && ParseArray(inner, depth, nodes) == Ok(p)
    requires SkipSpace(inner) != [] && SkipSpace(inner)[0] == ']'
    ensures IsTree(t) && s == TreeText(t) + p.rest && TreeValue(t) == p.value
  {
    var u := SkipSpace(inner);
    var gap := SkippedIsGap(inner);
    t := TArray(gap, []);
    assert u == "]" + u[1..];
    EmptyTrees("[", gap, u, "]");
  }

  lemma ObjectUnfold(inner: string, depth: nat, nodes: nat, p: Parsed) returns (list: ParsedMembers)
    requires ParseObject(inner, depth, nodes) == Ok(p) && !(SkipSpace(inner) != [] && SkipSpace(inner)[0] == '}')
    ensures MembersAt(inner, depth + 1, nodes, []) == Ok(list) && DistinctKeys(list.members)
    ensures p == Parsed(MakeObject(list.members), list.rest, list.nodes)
  {
    MembersSkip(inner, depth + 1, nodes);
    list := ParseMembers(SkipSpace(inner), depth + 1, nodes, []).value;
  }

  lemma {:induction false} ObjectTree(s: string, inner: string, depth: nat, nodes: nat, p: Parsed) returns (t: Tree)
    requires s == "{" + inner && ParseObject(inner, depth, nodes) == Ok(p)
    ensures IsTree(t) && t.TObject? && s == TreeText(t) + p.rest && TreeValue(t) == p.value
    decreases |inner|, 3
  {
    var u := SkipSpace(inner);
    if u != [] && u[0] == '}' {
      t := EmptyObjectTree(s, inner, depth, nodes, p);
    } else {
      var list := ObjectUnfold(inner, depth, nodes, p);
      var fields := FieldsTree(inner, depth + 1, nodes, [], list);
      assert [] + FieldValues(fields) == FieldValues(fields);
      t := TObject("", fields);
      Bracketed("{", FieldsText(fields), "}", list.rest);
    }
  }

  lemma EmptyObjectTree(s: string, inner: string, depth: nat, nodes: nat, p: Parsed) returns (t: Tree)
    requires s == "{" + inner && ParseObject(inner, depth, nodes) == Ok(p)
    requires SkipSpace(inner) != [] && SkipSpace(inner)[0] == '}'
    ensures IsTree(t) && t.TObject? && s == TreeText(t) + p.rest && TreeValue(t) == p.value
  {
    var u := SkipSpace(inner);
    var gap := SkippedIsGap(inner);
    t := TObject(gap, []);
    assert u == "}" + u[1..];
    EmptyTrees("{", gap, u, "}");
  }

  /** Whatever is read as a value is the text of a tree that means it. */
  lemma {:induction false} ValueTree(s: string, depth: nat, nodes: nat, p: Parsed) returns (t: Tree)
    requires ValueAt(s, depth, nodes) == Ok(p)
    ensures IsTree(t) && s == TreeText(t) + p.rest && TreeValue(t) == p.value
    decreases |s|, 0
  {
    assert s == [s[0]] + s[1..];
    if s[0] == '{' {
      t := ObjectTree(s, s[1..], depth, nodes + 1, p);
    } else if s[0] == '[' {
      t := ArrayTree(s, s[1..], depth, nodes + 1, p);
    } else if s[0] == '"' {
      var units := StringTree(s, ReadString(s[1..]).value);
      t := TText(units);
    } else {
      t := TokenTree(s, nodes + 1, p);
    }
  }

  // ---- records

  /** The bytes are the text of an object of the grammar, and it means this value. */
  ghost predicate IsTextOf(bytes: string, v: Value) {
    exists t: Tree :: IsTree(t) && t.TObject? && TreeText(t) == bytes && TreeValue(t) == v
  }

  lemma TextReads(bytes: string, t: Tree)
    requires IsTree(t) && t.TObject? && TreeText(t) == bytes && |bytes| <= MAXIMUM_RECORD_BYTES
    ensures ParseRecord(bytes) == if Admissible(TreeValue(t)) then Ok(TreeValue(t)) else Rejected(LimitExceeded)
  {
    assert bytes == bytes + [];
    TreeReads(t, bytes, [], 1, 0);
    assert bytes[0] == '{' && bytes[|bytes| - 1] == '}';
    ReadAsIs(TreeValue(t), [], 1, 0, Within(TreeValue(t), 1, 0), Nodes(TreeValue(t)));
  }

  /**
    The reader reads exactly the objects of the grammar: a text of one, whatever its blanks and escapes,
    is read as the value it means if text and value are within the limits and refused for a limit
    otherwise; and nothing else is read.
   */
  lemma RecordsAreReadExactly(bytes: string, v: Value)
    ensures ParseRecord(bytes) == Ok(v) <==> |bytes| <= MAXIMUM_RECORD_BYTES && Admissible(v) && IsTextOf(bytes, v)
    ensures IsTextOf(bytes, v) && !(|bytes| <= MAXIMUM_RECORD_BYTES && Admissible(v)) ==> ParseRecord(bytes) == Rejected(LimitExceeded)
  {
    if ParseRecord(bytes) == Ok(v) {
      ParsedRecordIsAdmissible(bytes, v);
      var p := ParseValue(bytes, 1, 0).value;
      assert ValueAt(bytes, 1, 0) == Ok(p) && bytes == "{" + bytes[1..];
      var t := ObjectTree(bytes, bytes[1..], 1, 1, p);
      assert TreeText(t) + [] == TreeText(t);
      assert IsTextOf(bytes, v);
    }
    if IsTextOf(bytes, v) && |bytes| <= MAXIMUM_RECORD_BYTES {
      var t: Tree :| IsTree(t) && t.TObject? && TreeText(t) == bytes && TreeValue(t) == v;
      TextReads(bytes, t);
    }
  }
}
