/**
  Two printers of one JSON layout: the report writer, which learns the tree one call at a time and
  remembers only a depth and two flags, and the recursive printer of the maintained form.
 */
module JsonReports {
  import CanonicalWriter
  import opened Decimals

  datatype Member = Member(key: string, value: Tree)

  datatype Tree =
    | Null
    | Boolean(value: bool)
    | Integer(number: int)
    | Text(text: string)
    | Array(elements: seq<Tree>)
    | Object(members: seq<Member>)

  // ---- escapes

  /** The two printers differ over bytes 0x08 and 0x0C alone. */
  datatype Style = Report | Maintained

  predicate HasShortEscape(c: char) {
    c as int == 0x08 || c as int == 0x0C
  }

  function EscapeOf(style: Style, c: char): string {
    if style.Report? && HasShortEscape(c) then
      "\\u00" + [CanonicalWriter.HEX_DIGITS[c as int / 16], CanonicalWriter.HEX_DIGITS[c as int % 16]]
    else CanonicalWriter.EscapeOf(c)
  }

  function Escaped(style: Style, text: string): string {
    if text == "" then "" else EscapeOf(style, text[0]) + Escaped(style, text[1..])
  }

  function Quoted(style: Style, text: string): string {
    ['"'] + Escaped(style, text) + ['"']
  }

  lemma BetweenQuotes(before: string, escaped: string)
    ensures before + ['"'] + escaped + ['"'] == before + (['"'] + escaped + ['"'])
  {}

  function Spaces(level: nat): string {
    seq(2 * level, _ => ' ')
  }

  // ---- the recursive printer

  function Printed(style: Style, t: Tree, indent: nat): string
    decreases t
  {
    match t
    case Null => "null"
    case Boolean(value) => if value then "true" else "false"
    case Integer(number) => IntegerText(number)
    case Text(text) => Quoted(style, text)
    case Array(elements) =>
      if elements == [] then "[]"
      else "[\n" + PrintedElements(style, elements, indent + 1) + Spaces(indent) + "]"
    case Object(members) =>
      if members == [] then "{}"
      else "{\n" + PrintedMembers(style, members, indent + 1) + Spaces(indent) + "}"
  }

  function PrintedElements(style: Style, elements: seq<Tree>, inner: nat): string
    decreases elements
  {
    if elements == [] then ""
    else Spaces(inner) + Printed(style, elements[0], inner) + (if |elements| > 1 then ",\n" else "\n")
         + PrintedElements(style, elements[1..], inner)
  }

  function PrintedMembers(style: Style, members: seq<Member>, inner: nat): string
    decreases members
  {
    if members == [] then ""
    else Spaces(inner) + PrintedMember(style, members[0], inner) + (if |members| > 1 then ",\n" else "\n")
         + PrintedMembers(style, members[1..], inner)
  }

  function PrintedMember(style: Style, m: Member, inner: nat): string
    decreases m
  {
    Quoted(style, m.key) + ": " + Printed(style, m.value, inner)
  }

  /** The lines from the k-th element on. */
  function ElementLines(style: Style, elements: seq<Tree>, k: nat, inner: nat): string
    requires k <= |elements|
  {
    PrintedElements(style, elements[k..], inner)
  }

  function MemberLines(style: Style, members: seq<Member>, k: nat, inner: nat): string
    requires k <= |members|
  {
    PrintedMembers(style, members[k..], inner)
  }

  lemma Regroup(before: string, margin: string, text: string, end: string, rest: string)
    ensures before + (margin + text + end + rest) == before + margin + text + end + rest
  {}

  lemma NextElementLine(before: string, style: Style, elements: seq<Tree>, k: nat, inner: nat)
    requires k < |elements|
    ensures before + ElementLines(style, elements, k, inner)
            == before + Spaces(inner) + Printed(style, elements[k], inner) + (if k + 1 < |elements| then ",\n" else "\n")
               + ElementLines(style, elements, k + 1, inner)
  {
    assert elements[k..][0] == elements[k] && elements[k..][1..] == elements[k + 1..];
    Regroup(before, Spaces(inner), Printed(style, elements[k], inner), if k + 1 < |elements| then ",\n" else "\n",
            ElementLines(style, elements, k + 1, inner));
  }

  lemma NextMemberLine(before: string, style: Style, members: seq<Member>, k: nat, inner: nat)
    requires k < |members|
    ensures before + MemberLines(style, members, k, inner)
            == before + Spaces(inner) + PrintedMember(style, members[k], inner) + (if k + 1 < |members| then ",\n" else "\n")
               + MemberLines(style, members, k + 1, inner)
  {
    assert members[k..][0] == members[k] && members[k..][1..] == members[k + 1..];
    Regroup(before, Spaces(inner), PrintedMember(style, members[k], inner), if k + 1 < |members| then ",\n" else "\n",
            MemberLines(style, members, k + 1, inner));
  }

  /** The string that printing in the maintained form appends to. */
  class MaintainedOutput {
    var output: string

    constructor ()
      ensures output == ""
    {
      output := "";
    }

    method AppendEscapes(text: string)
      modifies this
      ensures output == old(output) + Escaped(Maintained, text)
    {
      for k := 0 to |text|
        invariant output + Escaped(Maintained, text[k..]) == old(output) + Escaped(Maintained, text)
      {
        assert text[k..][0] == text[k] && text[k..][1..] == text[k + 1..];
        output := output + CanonicalWriter.EscapeOf(text[k]);
      }
    }

    method AppendEscaped(text: string)
      modifies this
      ensures output == old(output) + Quoted(Maintained, text)
    {
      output := output + ['"'];
      AppendEscapes(text);
      output := output + ['"'];
      BetweenQuotes(old(output), Escaped(Maintained, text));
    }

    method SerializeInto(node: Tree, indent: nat)
      modifies this
      ensures output == old(output) + Printed(Maintained, node, indent)
      decreases node
    {
      match node
      case Null => output := output + "null";
      case Boolean(value) => output := output + if value then "true" else "false";
      case Integer(number) => output := output + IntegerText(number);
      case Text(text) => AppendEscaped(text);
      case Array(elements) =>
        if elements == [] {
          output := output + "[]";
          return;
        }
        output := output + "[\n";
        SerializeElements(elements, indent);
        output := output + Spaces(indent);
        output := output + "]";
      case Object(members) =>
        if members == [] {
          output := output + "{}";
          return;
        }
        output := output + "{\n";
        SerializeMembers(members, indent);
        output := output + Spaces(indent);
        output := output + "}";
    }

    method SerializeElements(elements: seq<Tree>, indent: nat)
      modifies this
      ensures output == old(output) + ElementLines(Maintained, elements, 0, indent + 1)
      decreases elements
    {
      var inner := Spaces(indent + 1);
      for k := 0 to |elements|
        invariant output + ElementLines(Maintained, elements, k, indent + 1)
               == old(output) + ElementLines(Maintained, elements, 0, indent + 1)
      {
        ghost var before := output;
        output := output + inner;
        SerializeInto(elements[k], indent + 1);
        output := output + if k + 1 < |elements| then ",\n" else "\n";
        NextElementLine(before, Maintained, elements, k, indent + 1);
      }
      assert elements[|elements|..] == [];
    }

    method SerializeMembers(members: seq<Member>, indent: nat)
      modifies this
      ensures output == old(output) + MemberLines(Maintained, members, 0, indent + 1)
      decreases members
    {
      var inner := Spaces(indent + 1);
      for k := 0 to |members|
        invariant output + MemberLines(Maintained, members, k, indent + 1)
               == old(output) + MemberLines(Maintained, members, 0, indent + 1)
      {
        ghost var before := output;
        output := output + inner;
        SerializeMember(members[k], indent);
        output := output + if k + 1 < |members| then ",\n" else "\n";
        NextMemberLine(before, Maintained, members, k, indent + 1);
      }
      assert members[|members|..] == [];
    }

    method SerializeMember(m: Member, indent: nat)
      modifies this
      ensures output == old(output) + PrintedMember(Maintained, m, indent + 1)
      decreases m
    {
      AppendEscaped(m.key);
      output := output + ": ";
      SerializeInto(m.value, indent + 1);
    }
  }

  // ---- the report writer

  datatype Call =
    | BeginObject | EndObject | BeginArray | EndArray
    | Key(name: string)
    | WriteString(text: string) | WriteInteger(number: int) | WriteBoolean(value: bool)

  const DEEPEST := 0xFFFF_FFFF_FFFF_FFFF

  /** An unsigned 64-bit counter: it wraps round in both directions. */
  type Depth = d: int | 0 <= d <= DEEPEST

  function Deeper(d: Depth): Depth {
    if d == DEEPEST then 0 else d + 1
  }

  function Shallower(d: Depth): Depth {
    if d == 0 then DEEPEST else d - 1
  }

  datatype State = State(output: string, depth: Depth, needsComma: bool, afterKey: bool)

  /** What stands between the last thing written and the next. */
  function Separator(s: State): string {
    if s.afterKey then ""
    else (if s.needsComma then ",\n" else if s.depth > 0 then "\n" else "") + Spaces(s.depth)
  }

  function Begun(s: State, bracket: string): State {
    State(s.output + Separator(s) + bracket, Deeper(s.depth), false, false)
  }

  function Ended(s: State, bracket: string): State {
    State(s.output + (if s.needsComma then "\n" + Spaces(Shallower(s.depth)) else "") + bracket, Shallower(s.depth), true, s.afterKey)
  }

  function Written(s: State, text: string): State {
    State(s.output + Separator(s) + text, s.depth, true, false)
  }

  function Step(s: State, call: Call): State {
    match call
    case BeginObject => Begun(s, "{")
    case EndObject => Ended(s, "}")
    case BeginArray => Begun(s, "[")
    case EndArray => Ended(s, "]")
    case Key(name) => State(s.output + Separator(s) + Quoted(Report, name) + ": ", s.depth, false, true)
    case WriteString(text) => Written(s, Quoted(Report, text))
    case WriteInteger(number) => Written(s, IntegerText(number))
    case WriteBoolean(value) => Written(s, if value then "true" else "false")
  }

  /** The writer the report builders call. Closing more than was opened wraps its depth round. */
  class JsonWriter {
    var output: string
    var depth: Depth
    var needsComma: bool
    var afterKey: bool

    constructor ()
      ensures Now() == State("", 0, false, false)
    {
      output, depth, needsComma, afterKey := "", 0, false, false;
    }

    ghost function Now(): State
      reads this
    {
      State(output, depth, needsComma, afterKey)
    }

    method AppendEscapes(text: string)
      modifies this`output
      ensures output == old(output) + Escaped(Report, text)
    {
      for k := 0 to |text|
        invariant output + Escaped(Report, text[k..]) == old(output) + Escaped(Report, text)
      {
        assert text[k..][0] == text[k] && text[k..][1..] == text[k + 1..];
        output := output + EscapeOf(Report, text[k]);
      }
    }

    method AppendEscaped(text: string)
      modifies this`output
      ensures output == old(output) + Quoted(Report, text)
    {
      output := output + ['"'];
      AppendEscapes(text);
      output := output + ['"'];
      BetweenQuotes(old(output), Escaped(Report, text));
    }

    method Indent()
      modifies this`output
      ensures output == old(output) + Spaces(depth)
    {
      for level := 0 to depth
        invariant output == old(output) + Spaces(level)
      {
        output := output + "  ";
      }
    }

    method Separate()
      modifies this`output, this`afterKey
      ensures !afterKey && output == old(output) + Separator(old(Now()))
    {
      if afterKey {
        afterKey := false;
        return;
      }
      if needsComma {
        output := output + ",\n";
      } else if depth > 0 {
        output := output + "\n";
      }
      Indent();
    }

    method Begin(call: Call)
      requires call == BeginObject || call == BeginArray
      modifies this
      ensures Now() == Step(old(Now()), call)
    {
      Separate();
      output := output + if call == BeginObject then "{" else "[";
      depth := Deeper(depth);
      needsComma := false;
    }

    method End(call: Call)
      requires call == EndObject || call == EndArray
      modifies this
      ensures Now() == Step(old(Now()), call)
    {
      depth := Shallower(depth);
      if needsComma {
        output := output + "\n";
        Indent();
      }
      output := output + if call == EndObject then "}" else "]";
      needsComma := true;
    }

    method WriteKey(name: string)
      modifies this
      ensures Now() == Step(old(Now()), Key(name))
    {
      Separate();
      AppendEscaped(name);
      output := output + ": ";
      afterKey := true;
      needsComma := false;
    }

    method WriteText(text: string)
      modifies this
      ensures Now() == Step(old(Now()), WriteString(text))
    {
      Separate();
      AppendEscaped(text);
      needsComma := true;
    }

    method WriteScalar(call: Call)
      requires call.WriteInteger? || call.WriteBoolean?
      modifies this
      ensures Now() == Step(old(Now()), call)
    {
      Separate();
      if call.WriteInteger? {
        output := output + IntegerText(call.number);
      } else {
        output := output + if call.value then "true" else "false";
      }
      needsComma := true;
    }
  }

  // ---- a tree, told to the writer call by call

  /** The writer has no call for null, and cannot count brackets opened beyond its deepest level. */
  predicate IsReport(t: Tree, depth: Depth)
    decreases t
  {
    match t
    case Null => false
    case Array(elements) => depth < DEEPEST && forall k | 0 <= k < |elements| :: IsReport(elements[k], depth + 1)
    case Object(members) => depth < DEEPEST && forall k | 0 <= k < |members| :: IsReportMember(members[k], depth + 1)
    case _ => true
  }

  predicate IsReportMember(m: Member, depth: Depth)
    decreases m
  {
    IsReport(m.value, depth)
  }

  function Trace(t: Tree): seq<Call>
    decreases t
  {
    match t
    case Null => []
    case Boolean(value) => [WriteBoolean(value)]
    case Integer(number) => [WriteInteger(number)]
    case Text(text) => [WriteString(text)]
    case Array(elements) => [BeginArray] + TraceElements(elements) + [EndArray]
    case Object(members) => [BeginObject] + TraceMembers(members) + [EndObject]
  }

  function TraceElements(elements: seq<Tree>): seq<Call>
    decreases elements
  {
    if elements == [] then [] else Trace(elements[0]) + TraceElements(elements[1..])
  }

  function TraceMembers(members: seq<Member>): seq<Call>
    decreases members
  {
    if members == [] then [] else TraceMember(members[0]) + TraceMembers(members[1..])
  }

  function TraceMember(m: Member): seq<Call>
    decreases m
  {
    [Key(m.key)] + Trace(m.value)
  }

  function Run(s: State, calls: seq<Call>): State
    decreases |calls|
  {
    if calls == [] then s else Run(Step(s, calls[0]), calls[1..])
  }

  lemma {:induction false} RunConcat(s: State, first: seq<Call>, second: seq<Call>)
    ensures Run(s, first + second) == Run(Run(s, first), second)
    decreases |first|
  {
    if first == [] {
      assert first + second == second;
    } else {
      assert (first + second)[1..] == first[1..] + second;
      RunConcat(Step(s, first[0]), first[1..], second);
    }
  }

  lemma RunBetween(s: State, first: Call, inner: seq<Call>, last: Call)
    ensures Run(s, [first] + inner + [last]) == Step(Run(Step(s, first), inner), last)
  {
    RunConcat(s, [first] + inner, [last]);
    RunConcat(s, [first], inner);
    assert Run(s, [first]) == Step(s, first);
    var middle := Run(Step(s, first), inner);
    assert Run(middle, [last]) == Step(middle, last);
  }

  /** The writer's state once a whole tree has been told. */
  function Told(s: State, t: Tree): State {
    Run(s, Trace(t))
  }

  function ToldElements(s: State, elements: seq<Tree>): State {
    Run(s, TraceElements(elements))
  }

  function ToldMembers(s: State, members: seq<Member>): State {
    Run(s, TraceMembers(members))
  }

  /** The end of a list told so far: all its lines printed, the last one's end still to come. */
  ghost predicate Lists(s: State, lines: string, r: State) {
    && r.depth == s.depth && r.needsComma && !r.afterKey
    && r.output + "\n" == s.output + (if s.needsComma then ",\n" else "\n") + lines
  }

  /** Wherever a value is due, its calls write what the recursive printer prints at that depth. */
  lemma {:induction false} ToldIsPrinted(s: State, t: Tree)
    requires IsReport(t, s.depth)
    ensures Told(s, t) == Written(s, Printed(Report, t, s.depth))
    decreases t
  {
    match t
    case Array(elements) =>
      ToldElementsArePrinted(Begun(s, "["), elements);
      ToldArray(s, elements, PrintedElements(Report, elements, s.depth + 1), ToldElements(Begun(s, "["), elements));
    case Object(members) =>
      ToldMembersArePrinted(Begun(s, "{"), members);
      ToldObject(s, members, PrintedMembers(Report, members, s.depth + 1), ToldMembers(Begun(s, "{"), members));
    case _ =>
      ToldScalar(s, t);
  }

  lemma ToldScalar(s: State, t: Tree)
    requires t.Boolean? || t.Integer? || t.Text?
    ensures Told(s, t) == Written(s, Printed(Report, t, 0)) && forall indent: nat :: Printed(Report, t, indent) == Printed(Report, t, 0)
  {
    var call := Trace(t)[0];
    assert Trace(t) == [call];
    RunOne(s, call);
  }

  lemma RunOne(s: State, call: Call)
    ensures Run(s, [call]) == Step(s, call)
  {}

  lemma NoLinesNoElements(elements: seq<Tree>, inner: nat)
    ensures PrintedElements(Report, elements, inner) == "" <==> elements == []
  {
    if elements != [] {
      NotEmpty(Spaces(inner), Printed(Report, elements[0], inner), |elements| > 1, PrintedElements(Report, elements[1..], inner));
    }
  }

  lemma NoLinesNoMembers(members: seq<Member>, inner: nat)
    ensures PrintedMembers(Report, members, inner) == "" <==> members == []
  {
    if members != [] {
      NotEmpty(Spaces(inner), PrintedMember(Report, members[0], inner), |members| > 1, PrintedMembers(Report, members[1..], inner));
    }
  }

  lemma NotEmpty(margin: string, text: string, more: bool, rest: string)
    ensures margin + text + (if more then ",\n" else "\n") + rest != ""
  {}

  lemma ToldBetween(s: State, elements: seq<Tree>, members: seq<Member>)
    ensures Told(s, Array(elements)) == Ended(ToldElements(Begun(s, "["), elements), "]")
    ensures Told(s, Object(members)) == Ended(ToldMembers(Begun(s, "{"), members), "}")
  {
    RunBetween(s, BeginArray, TraceElements(elements), EndArray);
    RunBetween(s, BeginObject, TraceMembers(members), EndObject);
  }

  /** A printed list between its brackets. */
  function Bracketed(open: string, lines: string, indent: nat, close: string): string {
    if lines == "" then open + close else open + "\n" + lines + Spaces(indent) + close
  }

  lemma PrintedArray(elements: seq<Tree>, indent: nat, lines: string)
    requires lines == PrintedElements(Report, elements, indent + 1)
    ensures Printed(Report, Array(elements), indent) == Bracketed("[", lines, indent, "]")
  {
    NoLinesNoElements(elements, indent + 1);
  }

  lemma PrintedObject(members: seq<Member>, indent: nat, lines: string)
    requires lines == PrintedMembers(Report, members, indent + 1)
    ensures Printed(Report, Object(members), indent) == Bracketed("{", lines, indent, "}")
  {
    NoLinesNoMembers(members, indent + 1);
  }

  lemma ToldArray(s: State, elements: seq<Tree>, lines: string, filled: State)
    requires s.depth < DEEPEST && lines == PrintedElements(Report, elements, s.depth + 1)
    requires filled == ToldElements(Begun(s, "["), elements)
    requires if elements == [] then filled == Begun(s, "[") else Lists(Begun(s, "["), lines, filled)
    ensures Told(s, Array(elements)) == Written(s, Printed(Report, Array(elements), s.depth))
  {
    ToldBetween(s, elements, []);
    PrintedArray(elements, s.depth, lines);
    NoLinesNoElements(elements, s.depth + 1);
    Close(s, "[", filled, "]", lines);
  }

  lemma ToldObject(s: State, members: seq<Member>, lines: string, filled: State)
    requires s.depth < DEEPEST && lines == PrintedMembers(Report, members, s.depth + 1)
    requires filled == ToldMembers(Begun(s, "{"), members)
    requires if members == [] then filled == Begun(s, "{") else Lists(Begun(s, "{"), lines, filled)
    ensures Told(s, Object(members)) == Written(s, Printed(Report, Object(members), s.depth))
  {
    ToldBetween(s, [], members);
    PrintedObject(members, s.depth, lines);
    NoLinesNoMembers(members, s.depth + 1);
    Close(s, "{", filled, "}", lines);
  }

  /** Closing a bracket after its contents, printed or none. */
  lemma Close(s: State, open: string, filled: State, close: string, lines: string)
    requires s.depth < DEEPEST
    requires if lines == "" then filled == Begun(s, open) else Lists(Begun(s, open), lines, filled)
    ensures Ended(filled, close) == Written(s, Bracketed(open, lines, s.depth, close))
  {
    if lines != "" {
      Reassociate(s.output + Separator(s), open, lines, Spaces(s.depth), close);
    }
  }

  lemma Reassociate(before: string, open: string, lines: string, margin: string, close: string)
    ensures before + open + "\n" + lines + margin + close == before + (open + "\n" + lines + margin + close)
    ensures before + (open + close) == before + open + close
  {}

  /** A list's calls write its printed lines, but for the last line's end. */
  lemma {:induction false} ToldElementsArePrinted(s: State, elements: seq<Tree>)
    requires s.depth > 0 && !s.afterKey && forall k | 0 <= k < |elements| :: IsReport(elements[k], s.depth)
    ensures if elements == [] then ToldElements(s, elements) == s
            else Lists(s, PrintedElements(Report, elements, s.depth), ToldElements(s, elements))
    decreases elements
  {
    if elements != [] {
      var first, rest := elements[0], elements[1..];
      RunConcat(s, Trace(first), TraceElements(rest));
      ToldIsPrinted(s, first);
      var text := Printed(Report, first, s.depth);
      ToldElementsArePrinted(Written(s, text), rest);
      OneMoreLine(s, text, PrintedElements(Report, rest, s.depth), rest == [], ToldElements(Written(s, text), rest));
    }
  }

  lemma WrittenInAList(s: State, text: string)
    requires s.depth > 0 && !s.afterKey
    ensures Written(s, text).output == s.output + (if s.needsComma then ",\n" else "\n") + Spaces(s.depth) + text
  {
    var comma := if s.needsComma then ",\n" else "\n";
    assert s.output + (comma + Spaces(s.depth)) == s.output + comma + Spaces(s.depth);
  }

  lemma OneMoreLine(s: State, text: string, lines: string, last: bool, r: State)
    requires s.depth > 0 && !s.afterKey
    requires if last then r == Written(s, text) && lines == "" else Lists(Written(s, text), lines, r)
    ensures Lists(s, Spaces(s.depth) + text + (if last then "\n" else ",\n") + lines, r)
  {
    WrittenInAList(s, text);
    var comma := if s.needsComma then ",\n" else "\n";
    var end := if last then "\n" else ",\n";
    assert r.output + "\n" == Written(s, text).output + end + lines;
    Regroup(s.output + comma, Spaces(s.depth), text, end, lines);
  }

  lemma {:induction false} ToldMembersArePrinted(s: State, members: seq<Member>)
    requires s.depth > 0 && !s.afterKey && forall k | 0 <= k < |members| :: IsReportMember(members[k], s.depth)
    ensures if members == [] then ToldMembers(s, members) == s
            else Lists(s, PrintedMembers(Report, members, s.depth), ToldMembers(s, members))
    decreases members
  {
    if members != [] {
      var first, rest := members[0], members[1..];
      RunConcat(s, TraceMember(first), TraceMembers(rest));
      ToldMemberIsPrinted(s, first);
      var text := PrintedMember(Report, first, s.depth);
      ToldMembersArePrinted(Written(s, text), rest);
      OneMoreLine(s, text, PrintedMembers(Report, rest, s.depth), rest == [], ToldMembers(Written(s, text), rest));
    }
  }

  function ToldMember(s: State, m: Member): State {
    Run(s, TraceMember(m))
  }

  lemma {:induction false} ToldMemberIsPrinted(s: State, m: Member)
    requires s.depth > 0 && !s.afterKey && IsReportMember(m, s.depth)
    ensures ToldMember(s, m) == Written(s, PrintedMember(Report, m, s.depth))
    decreases m
  {
    RunConcat(s, [Key(m.key)], Trace(m.value));
    var keyed := Step(s, Key(m.key));
    assert Run(s, [Key(m.key)]) == keyed;
    ToldIsPrinted(keyed, m.value);
    ValueAfterKey(s, m.key, Printed(Report, m.value, s.depth));
  }

  lemma ValueAfterKey(s: State, key: string, text: string)
    ensures Written(Step(s, Key(key)), text) == Written(s, Quoted(Report, key) + ": " + text)
  {
    var before, quoted := s.output + Separator(s), Quoted(Report, key);
    assert before + quoted + ": " + text == before + (quoted + ": " + text);
  }

  // ---- the two printers

  /** No string or key of the tree holds a byte the two printers escape differently. */
  predicate IsPlain(t: Tree)
    decreases t
  {
    match t
    case Text(text) => IsPlainText(text)
    case Array(elements) => forall k | 0 <= k < |elements| :: IsPlain(elements[k])
    case Object(members) => forall k | 0 <= k < |members| :: IsPlainMember(members[k])
    case _ => true
  }

  predicate IsPlainMember(m: Member)
    decreases m
  {
    IsPlainText(m.key) && IsPlain(m.value)
  }

  predicate IsPlainText(text: string) {
    forall k | 0 <= k < |text| :: !HasShortEscape(text[k])
  }

  /** Equal when nothing differs, and otherwise the report is longer. */
  ghost predicate Grows(report: string, maintained: string, plain: bool) {
    if plain then report == maintained else |report| > |maintained|
  }

  lemma {:induction false} QuotedGrows(text: string)
    ensures Grows(Escaped(Report, text), Escaped(Maintained, text), IsPlainText(text))
    ensures Grows(Quoted(Report, text), Quoted(Maintained, text), IsPlainText(text))
  {
    if text != "" {
      var rest := text[1..];
      QuotedGrows(rest);
      assert IsPlainText(text) <==> !HasShortEscape(text[0]) && IsPlainText(rest) by {
        assert forall k | 0 <= k < |rest| :: rest[k] == text[k + 1];
        assert forall k | 0 < k < |text| :: text[k] == rest[k - 1];
      }
      assert Grows(EscapeOf(Report, text[0]), EscapeOf(Maintained, text[0]), !HasShortEscape(text[0]));
    }
  }

  lemma GrowsTogether(before: string, r: string, m: string, middle: string, r': string, m': string, plain: bool, plain': bool)
    requires Grows(r, m, plain) && Grows(r', m', plain')
    ensures Grows(before + r + middle + r', before + m + middle + m', plain && plain')
  {}

  lemma {:induction false} PrintingGrows(t: Tree, indent: nat)
    ensures Grows(Printed(Report, t, indent), Printed(Maintained, t, indent), IsPlain(t))
    decreases t
  {
    match t
    case Text(text) => QuotedGrows(text);
    case Array(elements) => ElementsGrow(elements, indent + 1);
    case Object(members) => MembersGrow(members, indent + 1);
    case _ =>
  }

  lemma {:induction false} ElementsGrow(elements: seq<Tree>, inner: nat)
    ensures Grows(PrintedElements(Report, elements, inner), PrintedElements(Maintained, elements, inner),
                  forall k | 0 <= k < |elements| :: IsPlain(elements[k]))
    decreases elements
  {
    if elements != [] {
      var first, rest := elements[0], elements[1..];
      PrintingGrows(first, inner);
      ElementsGrow(rest, inner);
      assert forall k | 0 <= k < |rest| :: rest[k] == elements[k + 1];
      GrowsTogether(Spaces(inner), Printed(Report, first, inner), Printed(Maintained, first, inner),
                    if |elements| > 1 then ",\n" else "\n",
                    PrintedElements(Report, rest, inner), PrintedElements(Maintained, rest, inner),
                    IsPlain(first), forall k | 0 <= k < |rest| :: IsPlain(rest[k]));
    }
  }

  lemma {:induction false} MembersGrow(members: seq<Member>, inner: nat)
    ensures Grows(PrintedMembers(Report, members, inner), PrintedMembers(Maintained, members, inner),
                  forall k | 0 <= k < |members| :: IsPlainMember(members[k]))
    decreases members
  {
    if members != [] {
      var first, rest := members[0], members[1..];
      MemberGrows(first, inner);
      MembersGrow(rest, inner);
      assert forall k | 0 <= k < |rest| :: rest[k] == members[k + 1];
      GrowsTogether(Spaces(inner), PrintedMember(Report, first, inner), PrintedMember(Maintained, first, inner),
                    if |members| > 1 then ",\n" else "\n",
                    PrintedMembers(Report, rest, inner), PrintedMembers(Maintained, rest, inner),
                    IsPlainMember(first), forall k | 0 <= k < |rest| :: IsPlainMember(rest[k]));
    }
  }

  lemma {:induction false} MemberGrows(m: Member, inner: nat)
    ensures Grows(PrintedMember(Report, m, inner), PrintedMember(Maintained, m, inner), IsPlainMember(m))
    decreases m
  {
    QuotedGrows(m.key);
    PrintingGrows(m.value, inner);
    GrowsTogether("", Quoted(Report, m.key), Quoted(Maintained, m.key), ": ",
                  Printed(Report, m.value, inner), Printed(Maintained, m.value, inner), IsPlainText(m.key), IsPlain(m.value));
  }

  /**
    A report told to a fresh writer is, byte for byte, its maintained form, exactly when no string
    in it holds byte 0x08 or 0x0C.
   */
  lemma ReportsAreInMaintainedForm(t: Tree)
    requires IsReport(t, 0)
    ensures Told(State("", 0, false, false), t).output == Printed(Maintained, t, 0) <==> IsPlain(t)
  {
    var start := State("", 0, false, false);
    ToldIsPrinted(start, t);
    PrintingGrows(t, 0);
    assert start.output + Separator(start) + Printed(Report, t, 0) == Printed(Report, t, 0);
  }

  lemma NothingMore(line: string)
    ensures line + "" == line
  {
  }

  lemma LastElementLine(t: Tree, inner: nat)
    ensures PrintedElements(Maintained, [t], inner) == Spaces(inner) + Printed(Maintained, t, inner) + "\n"
  {
    assert [t][1..] == [];
    NothingMore(Spaces(inner) + Printed(Maintained, t, inner) + "\n");
  }

  lemma TwoElementLines(t: Tree, u: Tree, inner: nat)
    ensures PrintedElements(Maintained, [t, u], inner)
            == Spaces(inner) + Printed(Maintained, t, inner) + ",\n" + (Spaces(inner) + Printed(Maintained, u, inner) + "\n")
  {
    assert [t, u][1..] == [u];
    LastElementLine(u, inner);
  }

  lemma OneMemberLine(key: char, t: Tree, inner: nat)
    requires 'a' <= key <= 'z'
    ensures PrintedMembers(Maintained, [Member([key], t)], inner)
            == Spaces(inner) + (['"', key, '"'] + ": " + Printed(Maintained, t, inner)) + "\n"
  {
    var m := Member([key], t);
    assert [m][1..] == [];
    OneLetterQuoted(key);
    NothingMore(Spaces(inner) + PrintedMember(Maintained, m, inner) + "\n");
  }

  lemma Margins()
    ensures Spaces(0) == "" && Spaces(1) == "  " && Spaces(2) == "    "
  {
  }

  /** The layout at work: two blanks a level, one element a line, nothing between empty brackets. */
  lemma ArrayLayout()
    ensures Printed(Maintained, Array([Array([]), Object([])]), 0) == "[\n  [],\n  {}\n]"
  {
    Margins();
    TwoElementLines(Array([]), Object([]), 1);
    var lines := PrintedElements(Maintained, [Array([]), Object([])], 1);
    assert lines == "  [],\n  {}\n";
    assert Printed(Maintained, Array([Array([]), Object([])]), 0) == "[\n" + lines + "" + "]";
  }

  lemma NestedLayout()
    ensures Printed(Maintained, Array([Null]), 1) == "[\n    null\n  ]"
  {
    Margins();
    LastElementLine(Null, 2);
    var inner := PrintedElements(Maintained, [Null], 2);
    assert inner == "    null\n";
    assert Printed(Maintained, Array([Null]), 1) == "[\n" + inner + "  " + "]";
  }

  lemma Braces(lines: string, inside: string)
    requires lines == "  \"a\": " + inside + "\n"
    ensures "{\n" + lines + "" + "}" == "{\n  \"a\": " + inside + "\n}"
  {
  }

  /** A member stands on a line of its own, after its key, a colon and a blank. */
  lemma MemberLayout()
    ensures Printed(Maintained, Object([Member("a", Array([Null]))]), 0) == "{\n  \"a\": [\n    null\n  ]\n}"
  {
    Margins();
    NestedLayout();
    OneMemberLine('a', Array([Null]), 1);
    var inside := Printed(Maintained, Array([Null]), 1);
    var lines := PrintedMembers(Maintained, [Member("a", Array([Null]))], 1);
    assert ['"', 'a', '"'] + ": " + inside == "\"a\": " + inside;
    Braces(lines, inside);
  }

  lemma OneLetterQuoted(c: char)
    requires 'a' <= c <= 'z'
    ensures Quoted(Maintained, [c]) == ['"', c, '"']
  {
    assert [c][1..] == "" && Escaped(Maintained, "") == "";
    assert EscapeOf(Maintained, c) == [c];
  }
}
