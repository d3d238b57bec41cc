/**
  Round trips between canonical bytes and values, and the gate that admits only bytes that are the
  canonical form of themselves.
 */
module CanonicalGate {
  import opened Options
  import opened Utf
  import opened Decimals
  import opened CanonicalValue
  import opened CanonicalWriter
  import opened CanonicalReader

  function Max(a: nat, b: nat): nat {
    if a > b then a else b
  }

  /** Nesting depth; a scalar has depth one. */
  function Depth(v: Value): nat
    decreases v
  {
    match v
    case Array(es) => 1 + DepthOfElements(es)
    case Object(ms) => 1 + DepthOfMembers(ms)
    case _ => 1
  }

  function DepthOfElements(es: seq<Value>): nat
    decreases es
  {
    if es == [] then 0 else Max(Depth(es[0]), DepthOfElements(es[1..]))
  }

  function DepthOfMembers(ms: seq<Member>): nat
    decreases ms
  {
    if ms == [] then 0 else Max(Depth(ms[0].value), DepthOfMembers(ms[1..]))
  }

  /** The number of values in a value, itself included. */
  function Nodes(v: Value): nat
    decreases v
  {
    match v
    case Array(es) => 1 + NodesOfElements(es)
    case Object(ms) => 1 + NodesOfMembers(ms)
    case _ => 1
  }

  function NodesOfElements(es: seq<Value>): nat
    decreases es
  {
    if es == [] then 0 else Nodes(es[0]) + NodesOfElements(es[1..])
  }

  function NodesOfMembers(ms: seq<Member>): nat
    decreases ms
  {
    if ms == [] then 0 else Nodes(ms[0].value) + NodesOfMembers(ms[1..])
  }

  predicate IsName(key: string) {
    IsUtf8(key) && |key| <= MAXIMUM_RECORD_STRING_BYTES
  }

  /** Every integer, string, name and object inside keeps its own limit and order. */
  ghost predicate Fits(v: Value)
    decreases v
  {
    match v
    case Null => true
    case Boolean(_) => true
    case Integer(n) => -SAFE_INTEGER_BOUND <= n <= SAFE_INTEGER_BOUND
    case Text(t) => IsName(t)
    case Array(es) => ElementsFit(es)
    case Object(ms) => |ms| <= MAXIMUM_RECORD_MEMBERS && MembersFit(ms) && ValidKeys(ms) && Ascending(ms)
  }

  ghost predicate ElementsFit(es: seq<Value>)
    decreases es
  {
    es == [] || (Fits(es[0]) && ElementsFit(es[1..]))
  }

  ghost predicate MembersFit(ms: seq<Member>)
    decreases ms
  {
    ms == [] || (IsName(ms[0].key) && Fits(ms[0].value) && MembersFit(ms[1..]))
  }

  /** A record the reader can return: an object within every limit. */
  ghost predicate Admissible(v: Value) {
    v.Object? && Fits(v) && Depth(v) <= MAXIMUM_RECORD_DEPTH && Nodes(v) <= MAXIMUM_RECORD_NODES
  }

  // ---- reading what was written

  lemma HexDigitsRead(n: nat)
    requires n < 16
    ensures HexValue(HEX_DIGITS[n]) == Some(n)
  {
  }

  lemma ControlReads(c: char, rest: string)
    requires c as int < 0x20
    requires EscapeOf(c) == "\\u00" + [HEX_DIGITS[c as int / 16], HEX_DIGITS[c as int % 16]]
    ensures ReadEscape((EscapeOf(c) + rest)[1..]) == Some(Scanned([c], rest))
  {
    var s := (EscapeOf(c) + rest)[1..];
    HexDigitsRead(c as int / 16);
    HexDigitsRead(c as int % 16);
    assert s[0] == 'u' && s[1] == '0' && s[2] == '0';
    assert s[3] == HEX_DIGITS[c as int / 16] && s[4] == HEX_DIGITS[c as int % 16];
    assert HexQuad(s[1..]) == Some(c as int);
    assert s[1..][4..] == rest;
  }

  /** One written character reads back as itself. */
  lemma EscapeReads(c: char, rest: string)
    ensures var s := EscapeOf(c) + rest;
      && s[0] as int >= 0x20 && s[0] != '"'
      && (if s[0] == '\\' then ReadEscape(s[1..]) else Some(Scanned([s[0]], s[1..]))) == Some(Scanned([c], rest))
  {
    var s := EscapeOf(c) + rest;
    if c as int < 0x20 && EscapeOf(c) == "\\u00" + [HEX_DIGITS[c as int / 16], HEX_DIGITS[c as int % 16]] {
      ControlReads(c, rest);
    } else if |EscapeOf(c)| == 2 {
      assert s[1..][0] == EscapeOf(c)[1] && s[1..][1..] == rest;
    } else {
      assert s[1..] == rest;
    }
  }

  lemma {:induction false} EscapedReads(text: string, rest: string)
    ensures ReadChars(Escaped(text) + "\"" + rest) == Some(Scanned(text, rest))
  {
    var s := Escaped(text) + "\"" + rest;
    if text == [] {
      assert s == ['"'] + rest;
      assert s[1..] == rest;
    } else {
      var tail := Escaped(text[1..]) + "\"" + rest;
      assert s == EscapeOf(text[0]) + tail;
      EscapeReads(text[0], tail);
      EscapedReads(text[1..], rest);
      assert text == [text[0]] + text[1..];
    }
  }

  lemma QuotedReads(text: string, rest: string)
    requires IsName(text)
    ensures (Quoted(text) + rest)[0] == '"'
    ensures ReadString((Quoted(text) + rest)[1..]) == Ok(Scanned(text, rest))
  {
    assert (Quoted(text) + rest)[1..] == Escaped(text) + "\"" + rest;
    EscapedReads(text, rest);
  }

  /** What may follow a value in canonical bytes. */
  predicate Ends(rest: string) {
    rest == [] || EndsToken(rest[0])
  }

  lemma TokenReads(token: string, rest: string)
    requires |token| > 0 && Ends(rest) && forall i | 0 <= i < |token| :: !EndsToken(token[i])
    ensures Token(token + rest) == token && (token + rest)[|token|..] == rest
  {
    TokenStops(token, rest);
  }

  lemma IntegerReads(n: int, rest: string, nodes: nat)
    requires -SAFE_INTEGER_BOUND <= n <= SAFE_INTEGER_BOUND && Ends(rest)
    ensures ParseToken(IntegerText(n) + rest, nodes) == Ok(Parsed(Integer(n), rest, nodes))
  {
    TokenReads(IntegerText(n), rest);
    IntegerTextIsToken(n);
    var token := IntegerText(n);
    assert token != "null" && token != "true" && token != "false" by {
      assert token[0] != 'n' && token[0] != 't' && token[0] != 'f';
    }
  }

  lemma ScalarReads(v: Value, rest: string, depth: nat, nodes: nat)
    requires v.Null? || v.Boolean? || v.Integer? || v.Text?
    requires Fits(v) && depth <= MAXIMUM_RECORD_DEPTH && nodes + 1 <= MAXIMUM_RECORD_NODES && Ends(rest)
    ensures ValueAt(Canonical(v) + rest, depth, nodes) == Ok(Parsed(v, rest, nodes + 1))
  {
    var s := Canonical(v) + rest;
    match v
    case Null => TokenReads("null", rest);
    case Boolean(b) => TokenReads(Canonical(v), rest);
    case Integer(n) =>
      IntegerReads(n, rest, nodes + 1);
      assert s[0] == IntegerText(n)[0];
    case Text(t) => QuotedReads(t, rest);
  }

  lemma CanonicalStarts(v: Value)
    ensures Canonical(v) != [] && !IsSpace(Canonical(v)[0]) && Canonical(v)[0] != ']' && Canonical(v)[0] != '}'
  {
  }

  /** Nothing is skipped in front of a canonical value. */
  lemma NothingToSkip(v: Value, rest: string)
    ensures SkipSpace(Canonical(v) + rest) == Canonical(v) + rest
  {
    CanonicalStarts(v);
  }

  // The three readers by names of their own, so that the recursion below never unfolds them.

  ghost function ValueAt(s: string, depth: nat, nodes: nat): Result<Parsed> {
    ParseValue(s, depth, nodes)
  }

  ghost function ElementsAt(s: string, depth: nat, nodes: nat): Result<ParsedElements> {
    ParseElements(s, depth, nodes)
  }

  ghost function MembersAt(s: string, depth: nat, nodes: nat, before: seq<Member>): Result<ParsedMembers>
    requires ValidKeys(before) && DistinctKeys(before)
  {
    ParseMembers(s, depth, nodes, before)
  }

  // One unfolding of each list reader, over any strings.

  lemma ElementsEnd(s: string, rest: string, depth: nat, nodes: nat, v: Value, nodes': nat)
    requires SkipSpace(s) == s && ValueAt(s, depth, nodes) == Ok(Parsed(v, "]" + rest, nodes'))
    ensures ElementsAt(s, depth, nodes) == Ok(ParsedElements([v], rest, nodes'))
  {
    assert ("]" + rest)[1..] == rest;
  }

  lemma ElementsContinue(s: string, tail: string, depth: nat, nodes: nat, v: Value, nodes': nat, list: ParsedElements)
    requires SkipSpace(s) == s && ValueAt(s, depth, nodes) == Ok(Parsed(v, "," + tail, nodes'))
    requires ElementsAt(tail, depth, nodes') == Ok(list)
    ensures ElementsAt(s, depth, nodes) == Ok(ParsedElements([v] + list.elements, list.rest, list.nodes))
  {
    assert ("," + tail)[1..] == tail;
  }

  lemma MembersHead(s: string, key: string, value: string, before: seq<Member>)
    requires ValidKeys(before) && IsName(key) && !HasKey(before, key) && |before| < MAXIMUM_RECORD_MEMBERS
    requires s == Quoted(key) + (":" + value) && SkipSpace(value) == value
    ensures SkipSpace(s) == s && s != [] && s[0] == '"'
    ensures ReadString(s[1..]) == Ok(Scanned(key, ":" + value))
    ensures SkipSpace(":" + value) == ":" + value && SkipSpace((":" + value)[1..]) == value
  {
    QuotedReads(key, ":" + value);
    assert (":" + value)[1..] == value;
  }

  lemma MembersEnd(
    s: string, rest: string, depth: nat, nodes: nat, m: Member, value: string, nodes': nat,
    before: seq<Member>, list: ParsedMembers)
    requires ValidKeys(before) && DistinctKeys(before)
    requires IsName(m.key) && !HasKey(before, m.key) && |before| < MAXIMUM_RECORD_MEMBERS
    requires s == Quoted(m.key) + (":" + value) && SkipSpace(value) == value
    requires ValueAt(value, depth, nodes) == Ok(Parsed(m.value, "}" + rest, nodes'))
    requires list == ParsedMembers(before + [m], rest, nodes')
    ensures MembersAt(s, depth, nodes, before) == Ok(list)
  {
    MembersHead(s, m.key, value, before);
    assert ("}" + rest)[1..] == rest && m == Member(m.key, m.value);
  }

  lemma MembersContinue(
    s: string, tail: string, depth: nat, nodes: nat, m: Member, value: string, nodes': nat,
    before: seq<Member>, longer: seq<Member>, list: ParsedMembers)
    requires ValidKeys(before) && DistinctKeys(before) && longer == before + [m]
    requires IsName(m.key) && !HasKey(before, m.key) && |before| < MAXIMUM_RECORD_MEMBERS
    requires s == Quoted(m.key) + (":" + value) && SkipSpace(value) == value
    requires ValueAt(value, depth, nodes) == Ok(Parsed(m.value, "," + tail, nodes'))
    requires ValidKeys(longer) && DistinctKeys(longer) && MembersAt(tail, depth, nodes', longer) == Ok(list)
    ensures MembersAt(s, depth, nodes, before) == Ok(list)
  {
    MembersHead(s, m.key, value, before);
    assert ("," + tail)[1..] == tail && m == Member(m.key, m.value);
  }

  lemma EmptyArray(s: string, rest: string, depth: nat, nodes: nat)
    requires s == "[" + ("]" + rest) && depth <= MAXIMUM_RECORD_DEPTH && nodes + 1 <= MAXIMUM_RECORD_NODES
    ensures ValueAt(s, depth, nodes) == Ok(Parsed(Array([]), rest, nodes + 1))
  {
    assert s[1..] == "]" + rest && ("]" + rest)[1..] == rest;
    assert ParseArray("]" + rest, depth, nodes + 1) == Ok(Parsed(Array([]), rest, nodes + 1));
  }

  lemma FilledArray(s: string, inner: string, depth: nat, nodes: nat, list: ParsedElements)
    requires s == "[" + inner && depth <= MAXIMUM_RECORD_DEPTH && nodes + 1 <= MAXIMUM_RECORD_NODES
    requires inner != [] && SkipSpace(inner) == inner && inner[0] != ']'
    requires ElementsAt(inner, depth + 1, nodes + 1) == Ok(list)
    ensures ValueAt(s, depth, nodes) == Ok(Parsed(Array(list.elements), list.rest, list.nodes))
  {
    assert s[1..] == inner;
    assert ParseArray(inner, depth, nodes + 1) == Ok(Parsed(Array(list.elements), list.rest, list.nodes));
  }

  lemma EmptyObject(s: string, rest: string, depth: nat, nodes: nat)
    requires s == "{" + ("}" + rest) && depth <= MAXIMUM_RECORD_DEPTH && nodes + 1 <= MAXIMUM_RECORD_NODES
    ensures ValueAt(s, depth, nodes) == Ok(Parsed(Object([]), rest, nodes + 1))
  {
    assert s[1..] == "}" + rest && ("}" + rest)[1..] == rest;
    assert ParseObject("}" + rest, depth, nodes + 1) == Ok(Parsed(Object([]), rest, nodes + 1));
  }

  lemma FilledObject(s: string, inner: string, depth: nat, nodes: nat, v: Value, rest: string, nodes': nat)
    requires v.Object? && s == "{" + inner && depth <= MAXIMUM_RECORD_DEPTH && nodes + 1 <= MAXIMUM_RECORD_NODES
    requires inner != [] && SkipSpace(inner) == inner && inner[0] != '}' && ValidKeys(v.members) && Ascending(v.members)
    requires MembersAt(inner, depth + 1, nodes + 1, []) == Ok(ParsedMembers(v.members, rest, nodes'))
    ensures ValueAt(s, depth, nodes) == Ok(Parsed(v, rest, nodes'))
  {
    assert s[1..] == inner;
    SortingAscendingChangesNothing(v.members);
    assert MakeObject(v.members) == v;
    assert ParseObject(inner, depth, nodes + 1) == Ok(Parsed(v, rest, nodes'));
  }

  /** Reading the canonical bytes of a value gives it back and stops after them. */
  lemma {:induction false} CanonicalReads(v: Value, s: string, rest: string, depth: nat, nodes: nat)
    requires s == Canonical(v) + rest
    requires Fits(v) && Ends(rest) && 1 <= depth
    requires depth + Depth(v) - 1 <= MAXIMUM_RECORD_DEPTH && nodes + Nodes(v) <= MAXIMUM_RECORD_NODES
    ensures ValueAt(s, depth, nodes) == Ok(Parsed(v, rest, nodes + Nodes(v)))
    decreases v, 1
  {
    match v
    case Array(es) => ArrayReads(v, s, rest, depth, nodes);
    case Object(ms) => ObjectReads(v, s, rest, depth, nodes);
    case _ => ScalarReads(v, rest, depth, nodes);
  }

  lemma {:induction false} ArrayReads(v: Value, s: string, rest: string, depth: nat, nodes: nat)
    requires v.Array? && s == Canonical(v) + rest
    requires ElementsFit(v.elements) && 1 <= depth
    requires depth + Depth(v) - 1 <= MAXIMUM_RECORD_DEPTH && nodes + Nodes(v) <= MAXIMUM_RECORD_NODES
    ensures ValueAt(s, depth, nodes) == Ok(Parsed(v, rest, nodes + Nodes(v)))
    decreases v, 0
  {
    var es := v.elements;
    if es == [] {
      EmptyArray(s, rest, depth, nodes);
    } else {
      var inner := ArrayText(es, s, rest);
      ElementsRead(es, inner, rest, depth + 1, nodes + 1, nodes + Nodes(v));
      FilledArray(s, inner, depth, nodes, ParsedElements(es, rest, nodes + Nodes(v)));
    }
  }

  lemma {:induction false} ObjectReads(v: Value, s: string, rest: string, depth: nat, nodes: nat)
    requires v.Object? && s == Canonical(v) + rest && Fits(v) && 1 <= depth
    requires depth + Depth(v) - 1 <= MAXIMUM_RECORD_DEPTH && nodes + Nodes(v) <= MAXIMUM_RECORD_NODES
    ensures ValueAt(s, depth, nodes) == Ok(Parsed(v, rest, nodes + Nodes(v)))
    decreases v, 0
  {
    if v.members == [] {
      NoMembersRead(v, s, rest, depth, nodes);
    } else {
      ObjectAllowed(v.members, depth, nodes);
      FilledObjectReads(v, v.members, s, rest, depth, nodes, nodes + Nodes(v));
    }
  }

  lemma {:induction false} FilledObjectReads(
    v: Value, ms: seq<Member>, s: string, rest: string, depth: nat, nodes: nat, total: nat)
    requires v == Object(ms) && ms != [] && s == Canonical(v) + rest && total == nodes + 1 + NodesOfMembers(ms)
    requires MembersAllowed(ms, [], depth + 1, nodes + 1) && ValidKeys(ms) && Ascending(ms)
    requires depth <= MAXIMUM_RECORD_DEPTH && nodes + 1 <= MAXIMUM_RECORD_NODES
    ensures ValueAt(s, depth, nodes) == Ok(Parsed(v, rest, total))
    decreases ms, 3
  {
    var inner := ObjectText(ms, s, rest);
    InnerMembersRead(ms, inner, rest, depth + 1, nodes + 1, total);
    FilledObject(s, inner, depth, nodes, v, rest, total);
  }

  lemma ObjectAllowed(ms: seq<Member>, depth: nat, nodes: nat)
    requires ms != [] && Fits(Object(ms)) && 1 <= depth
    requires depth + Depth(Object(ms)) - 1 <= MAXIMUM_RECORD_DEPTH
    requires nodes + Nodes(Object(ms)) <= MAXIMUM_RECORD_NODES
    ensures MembersAllowed(ms, [], depth + 1, nodes + 1)
    ensures nodes + Nodes(Object(ms)) == nodes + 1 + NodesOfMembers(ms)
  {
    AllFresh(ms);
  }

  /** An object's members, from its opening brace on. */
  lemma {:induction false} InnerMembersRead(ms: seq<Member>, s: string, rest: string, depth: nat, nodes: nat, after: nat)
    requires s == CanonicalMembers(ms) + ("}" + rest) && MembersAllowed(ms, [], depth, nodes)
    requires after == nodes + NodesOfMembers(ms)
    ensures MembersAt(s, depth, nodes, []) == Ok(ParsedMembers(ms, rest, after))
    decreases ms, 2
  {
    assert [] + ms == ms;
    MembersRead(ms, [], s, rest, depth, nodes, ParsedMembers(ms, rest, after));
  }

  lemma NoMembersRead(v: Value, s: string, rest: string, depth: nat, nodes: nat)
    requires v == Object([]) && s == Canonical(v) + rest
    requires depth <= MAXIMUM_RECORD_DEPTH && nodes + 1 <= MAXIMUM_RECORD_NODES
    ensures ValueAt(s, depth, nodes) == Ok(Parsed(v, rest, nodes + Nodes(v)))
  {
    EmptyObject(s, rest, depth, nodes);
    assert Nodes(v) == 1;
  }

  /** No name of `ms` is among those before it. */
  ghost predicate Fresh(before: seq<Member>, ms: seq<Member>)
    decreases |ms|
  {
    ms == [] || (!HasKey(before, ms[0].key) && Fresh(before + [ms[0]], ms[1..]))
  }

  lemma {:induction false} DistinctIsFresh(before: seq<Member>, ms: seq<Member>)
    requires DistinctKeys(before + ms)
    ensures Fresh(before, ms)
    decreases |ms|
  {
    if ms != [] {
      forall i | 0 <= i < |before| ensures before[i].key != ms[0].key {
        assert (before + ms)[i] == before[i] && (before + ms)[|before|] == ms[0];
      }
      assert before + [ms[0]] + ms[1..] == before + ms;
      DistinctIsFresh(before + [ms[0]], ms[1..]);
    }
  }

  lemma AllFresh(ms: seq<Member>)
    requires ValidKeys(ms) && Ascending(ms)
    ensures Fresh([], ms)
  {
    AscendingIsDistinct(ms);
    assert [] + ms == ms;
    DistinctIsFresh([], ms);
  }

  lemma ArrayText(es: seq<Value>, s: string, rest: string) returns (inner: string)
    requires es != [] && s == Canonical(Array(es)) + rest
    ensures s == "[" + inner && inner == CanonicalElements(es) + ("]" + rest)
    ensures inner != [] && SkipSpace(inner) == inner && inner[0] != ']'
  {
    inner := CanonicalElements(es) + ("]" + rest);
    CanonicalStarts(es[0]);
    assert inner[0] == Canonical(es[0])[0];
  }

  lemma MemberStarts(m: Member)
    ensures CanonicalMember(m) != [] && CanonicalMember(m)[0] == '"'
  {
  }

  lemma MembersStart(ms: seq<Member>)
    requires ms != []
    ensures CanonicalMembers(ms) != [] && CanonicalMembers(ms)[0] == '"'
  {
    MemberStarts(ms[0]);
  }

  lemma ObjectText(ms: seq<Member>, s: string, rest: string) returns (inner: string)
    requires ms != [] && s == Canonical(Object(ms)) + rest
    ensures s == "{" + inner && inner == CanonicalMembers(ms) + ("}" + rest)
    ensures inner != [] && SkipSpace(inner) == inner && inner[0] != '}'
  {
    MembersStart(ms);
    inner := Bracketed(CanonicalMembers(ms), s, rest);
  }

  lemma Bracketed(text: string, s: string, rest: string) returns (inner: string)
    requires text != [] && text[0] == '"' && s == "{" + text + "}" + rest
    ensures s == "{" + inner && inner == text + ("}" + rest)
    ensures inner != [] && SkipSpace(inner) == inner && inner[0] != '}'
  {
    inner := text + ("}" + rest);
  }

  lemma LastElementText(es: seq<Value>, s: string, rest: string)
    requires |es| == 1 && s == CanonicalElements(es) + ("]" + rest)
    ensures s == Canonical(es[0]) + ("]" + rest) && SkipSpace(s) == s
  {
    NothingToSkip(es[0], "]" + rest);
  }

  lemma ElementsText(es: seq<Value>, s: string, rest: string) returns (tail: string)
    requires |es| > 1 && s == CanonicalElements(es) + ("]" + rest)
    ensures s == Canonical(es[0]) + ("," + tail) && SkipSpace(s) == s
    ensures tail == CanonicalElements(es[1..]) + ("]" + rest)
  {
    tail := CanonicalElements(es[1..]) + ("]" + rest);
    assert s == Canonical(es[0]) + ("," + tail);
    NothingToSkip(es[0], "," + tail);
  }

  lemma ElementsMeasures(es: seq<Value>)
    requires es != []
    ensures es == [es[0]] + es[1..] && (|es| == 1 ==> es == [es[0]])
    ensures NodesOfElements(es) == Nodes(es[0]) + (if |es| == 1 then 0 else NodesOfElements(es[1..]))
    ensures Depth(es[0]) <= DepthOfElements(es) && DepthOfElements(es[1..]) <= DepthOfElements(es)
    ensures ElementsFit(es) ==> Fits(es[0]) && ElementsFit(es[1..])
  {
    if |es| == 1 {
      assert es[1..] == [];
    }
  }

  /** What a list needs, for the part of it still to be read. */
  ghost predicate ElementsAllowed(es: seq<Value>, depth: nat, nodes: nat) {
    && es != [] && ElementsFit(es) && 1 <= depth
    && depth + DepthOfElements(es) - 1 <= MAXIMUM_RECORD_DEPTH
    && nodes + NodesOfElements(es) <= MAXIMUM_RECORD_NODES
  }

  lemma RestAllowed(es: seq<Value>, depth: nat, nodes: nat)
    requires |es| > 1 && ElementsAllowed(es, depth, nodes)
    ensures ElementsAllowed(es[1..], depth, nodes + Nodes(es[0]))
    ensures nodes + NodesOfElements(es) == nodes + Nodes(es[0]) + NodesOfElements(es[1..]) && es == [es[0]] + es[1..]
  {
    ElementsMeasures(es);
  }

  lemma {:induction false} ElementsRead(es: seq<Value>, s: string, rest: string, depth: nat, nodes: nat, total: nat)
    requires s == CanonicalElements(es) + ("]" + rest) && ElementsAllowed(es, depth, nodes)
    requires total == nodes + NodesOfElements(es)
    ensures ElementsAt(s, depth, nodes) == Ok(ParsedElements(es, rest, total))
    decreases es, 1
  {
    if |es| == 1 {
      LastElementReads(es, s, rest, depth, nodes, total);
    } else {
      var e, others := es[0], es[1..];
      var tail := ElementsText(es, s, rest);
      var after := nodes + Nodes(e);
      RestAllowed(es, depth, nodes);
      FirstElementReads(es, s, e, tail, depth, nodes, after);
      ElementsRead(others, tail, rest, depth, after, total);
      ElementsContinue(s, tail, depth, nodes, e, after, ParsedElements(others, rest, total));
    }
  }

  lemma {:induction false} FirstElementReads(
    es: seq<Value>, s: string, e: Value, tail: string, depth: nat, nodes: nat, after: nat)
    requires ElementsAllowed(es, depth, nodes) && e == es[0] && after == nodes + Nodes(e)
    requires s == Canonical(e) + ("," + tail)
    ensures ValueAt(s, depth, nodes) == Ok(Parsed(e, "," + tail, after))
    decreases es, 0
  {
    ElementsMeasures(es);
    CanonicalReads(e, s, "," + tail, depth, nodes);
  }

  lemma {:induction false} LastElementReads(
    es: seq<Value>, s: string, rest: string, depth: nat, nodes: nat, total: nat)
    requires |es| == 1 && s == CanonicalElements(es) + ("]" + rest) && ElementsAllowed(es, depth, nodes)
    requires total == nodes + NodesOfElements(es)
    ensures ElementsAt(s, depth, nodes) == Ok(ParsedElements(es, rest, total))
    decreases es, 0
  {
    ElementsMeasures(es);
    LastElementText(es, s, rest);
    CanonicalReads(es[0], s, "]" + rest, depth, nodes);
    ElementsEnd(s, rest, depth, nodes, es[0], total);
  }

  lemma MemberText(m: Member, s: string, after: string) returns (value: string)
    requires s == CanonicalMember(m) + after
    ensures s == Quoted(m.key) + (":" + value) && value == Canonical(m.value) + after && SkipSpace(value) == value
  {
    value := Canonical(m.value) + after;
    NothingToSkip(m.value, after);
    Colon(Quoted(m.key), Canonical(m.value), after);
  }

  lemma Colon(name: string, value: string, after: string)
    ensures name + ":" + value + after == name + (":" + (value + after))
  {}

  lemma MembersText(ms: seq<Member>, s: string, rest: string) returns (tail: string)
    requires |ms| > 1 && s == CanonicalMembers(ms) + ("}" + rest)
    ensures s == CanonicalMember(ms[0]) + ("," + tail)
    ensures tail == CanonicalMembers(ms[1..]) + ("}" + rest)
  {
    tail := CanonicalMembers(ms[1..]) + ("}" + rest);
  }

  lemma MembersMeasures(ms: seq<Member>)
    requires ms != []
    ensures ms[0] == Member(ms[0].key, ms[0].value)
    ensures ms == [ms[0]] + ms[1..] && (|ms| == 1 ==> ms == [ms[0]])
    ensures NodesOfMembers(ms) == Nodes(ms[0].value) + (if |ms| == 1 then 0 else NodesOfMembers(ms[1..]))
    ensures Depth(ms[0].value) <= DepthOfMembers(ms) && DepthOfMembers(ms[1..]) <= DepthOfMembers(ms)
    ensures MembersFit(ms) ==> IsName(ms[0].key) && Fits(ms[0].value) && MembersFit(ms[1..])
  {
    if |ms| == 1 {
      assert ms[1..] == [];
    }
    DepthOfFirst(ms);
  }

  lemma DepthOfFirst(ms: seq<Member>)
    requires ms != []
    ensures Depth(ms[0].value) <= DepthOfMembers(ms) && DepthOfMembers(ms[1..]) <= DepthOfMembers(ms)
  {}

  /** What a list of members needs, for the part of it still to be read. */
  ghost predicate MembersAllowed(ms: seq<Member>, before: seq<Member>, depth: nat, nodes: nat) {
    && ms != [] && MembersFit(ms) && 1 <= depth
    && ValidKeys(before) && DistinctKeys(before) && Fresh(before, ms)
    && |before| + |ms| <= MAXIMUM_RECORD_MEMBERS
    && depth + DepthOfMembers(ms) - 1 <= MAXIMUM_RECORD_DEPTH
    && nodes + NodesOfMembers(ms) <= MAXIMUM_RECORD_NODES
  }

  lemma RestOfMembersAllowed(ms: seq<Member>, before: seq<Member>, depth: nat, nodes: nat)
    requires |ms| > 1 && MembersAllowed(ms, before, depth, nodes)
    ensures MembersAllowed(ms[1..], before + [ms[0]], depth, nodes + Nodes(ms[0].value))
    ensures nodes + NodesOfMembers(ms) == nodes + Nodes(ms[0].value) + NodesOfMembers(ms[1..])
    ensures before + [ms[0]] + ms[1..] == before + ms
    ensures IsName(ms[0].key) && !HasKey(before, ms[0].key) && |before| < MAXIMUM_RECORD_MEMBERS
  {
    MembersMeasures(ms);
    MoveOne(before, ms);
  }

  lemma {:induction false} MembersRead(
    ms: seq<Member>, before: seq<Member>, s: string, rest: string, depth: nat, nodes: nat, list: ParsedMembers)
    requires s == CanonicalMembers(ms) + ("}" + rest) && MembersAllowed(ms, before, depth, nodes)
    requires list == ParsedMembers(before + ms, rest, nodes + NodesOfMembers(ms))
    ensures MembersAt(s, depth, nodes, before) == Ok(list)
    decreases ms, 1
  {
    if |ms| == 1 {
      LastMemberReads(ms, before, s, rest, depth, nodes, list);
    } else {
      var m := ms[0];
      var tail := MembersText(ms, s, rest);
      var after := nodes + Nodes(m.value);
      RestOfMembersAllowed(ms, before, depth, nodes);
      var longer := before + [m];
      MembersRead(ms[1..], longer, tail, rest, depth, after, list);
      var value := FirstMemberReads(ms, before, s, m, tail, depth, nodes, after);
      MembersContinue(s, tail, depth, nodes, m, value, after, before, longer, list);
    }
  }

  lemma {:induction false} FirstMemberReads(
    ms: seq<Member>, before: seq<Member>, s: string, m: Member, tail: string, depth: nat, nodes: nat, after: nat)
    returns (value: string)
    requires MembersAllowed(ms, before, depth, nodes) && m == ms[0] && after == nodes + Nodes(m.value)
    requires s == CanonicalMember(m) + ("," + tail)
    ensures s == Quoted(m.key) + (":" + value) && SkipSpace(value) == value
    ensures ValueAt(value, depth, nodes) == Ok(Parsed(m.value, "," + tail, after))
    decreases ms, 0
  {
    MembersMeasures(ms);
    value := MemberText(m, s, "," + tail);
    CanonicalReads(m.value, value, "," + tail, depth, nodes);
  }

  lemma {:induction false} LastMemberReads(
    ms: seq<Member>, before: seq<Member>, s: string, rest: string, depth: nat, nodes: nat, list: ParsedMembers)
    requires |ms| == 1 && s == CanonicalMembers(ms) + ("}" + rest) && MembersAllowed(ms, before, depth, nodes)
    requires list == ParsedMembers(before + ms, rest, nodes + NodesOfMembers(ms))
    ensures MembersAt(s, depth, nodes, before) == Ok(list)
    decreases ms, 0
  {
    MembersMeasures(ms);
    MoveOne(before, ms);
    var m := ms[0];
    var value := MemberText(m, s, "}" + rest);
    CanonicalReads(m.value, value, "}" + rest, depth, nodes);
    MembersEnd(s, rest, depth, nodes, m, value, nodes + Nodes(m.value), before, list);
  }

  lemma MoveOne(before: seq<Member>, ms: seq<Member>)
    requires ms != [] && ValidKeys(before) && DistinctKeys(before)
    requires IsUtf8(ms[0].key) && !HasKey(before, ms[0].key)
    ensures ValidKeys(before + [ms[0]]) && DistinctKeys(before + [ms[0]])
    ensures before + [ms[0]] + ms[1..] == before + ms
    ensures ms == [ms[0]] ==> before + [ms[0]] == before + ms
  {
  }
}
