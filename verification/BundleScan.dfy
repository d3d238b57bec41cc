/**
  Isolating one top-level member of an attestation bundle without parsing it: a scan that tracks
  strings, escapes and nesting only.
 */
module BundleScan {
  import opened Options

  datatype Extraction = Found(text: string) | EnvelopeMismatch | BundleMalformed

  predicate IsSpace(c: char) {
    c == ' ' || c == '\t' || c == '\n' || c == '\r'
  }

  // ---- the scan, over what is left of the document

  function SkipBlanks(s: string): (r: string)
    ensures |r| <= |s| && (r != "" ==> !IsSpace(r[0]))
  {
    if s != "" && IsSpace(s[0]) then SkipBlanks(s[1..]) else s
  }

  function Plus(n: nat, length: Option<nat>): Option<nat> {
    match length
    case None => None
    case Some(m) => Some(n + m)
  }

  /** How far a member name runs before its closing quote; an escape hides the next character. */
  function NameLength(s: string): (length: Option<nat>)
    ensures length.Some? ==> length.value < |s|
  {
    if s == "" then None
    else if s[0] == '"' then Some(0)
    else if s[0] == '\\' then if |s| < 2 then None else Plus(2, NameLength(s[2..]))
    else Plus(1, NameLength(s[1..]))
  }

  /** How far a member value runs, from this nesting depth, in or out of a string. */
  function ValueLength(s: string, depth: nat, inString: bool): (length: Option<nat>)
    ensures length.Some? ==> length.value <= |s|
  {
    if s == "" then if inString || depth != 0 then None else Some(0)
    else if inString then
      if s[0] == '\\' then if |s| < 2 then None else Plus(2, ValueLength(s[2..], depth, true))
      else Plus(1, ValueLength(s[1..], depth, s[0] != '"'))
    else if s[0] == '"' then Plus(1, ValueLength(s[1..], depth, true))
    else if s[0] == '{' || s[0] == '[' then Plus(1, ValueLength(s[1..], depth + 1, false))
    else if s[0] == '}' || s[0] == ']' then
      if depth == 0 then Some(0) else Plus(1, ValueLength(s[1..], depth - 1, false))
    else if s[0] == ',' && depth == 0 then Some(0)
    else Plus(1, ValueLength(s[1..], depth, false))
  }

  function Trimmed(s: string): (r: string)
    ensures |r| <= |s|
  {
    if s != "" && IsSpace(s[|s| - 1]) then Trimmed(s[..|s| - 1]) else s
  }

  function Extracted(value: string): Extraction {
    var text := Trimmed(value);
    if text == "" then BundleMalformed else Found(text)
  }

  /** From a member's value on: the value if it is the one asked for, and otherwise what follows it. */
  function FromValue(v: string, wanted: bool, name: string): Extraction
    decreases |v|, 2
  {
    match ValueLength(v, 0, false)
    case None => BundleMalformed
    case Some(n) => if wanted then Extracted(v[..n]) else FromMember(v[n..], name)
  }

  /** From the name's closing quote on. */
  function FromColon(s: string, wanted: bool, name: string): Extraction
    decreases |s|, 0
  {
    var r := SkipBlanks(s);
    if r == "" || r[0] != ':' then BundleMalformed
    else FromValue(SkipBlanks(r[1..]), wanted, name)
  }

  /** From a place where a member, a comma or the end may stand. */
  function FromMember(s: string, name: string): Extraction
    decreases |s|, 1
  {
    var r := SkipBlanks(s);
    if r == "" || r[0] == '}' then EnvelopeMismatch
    else if r[0] == ',' then FromMember(r[1..], name)
    else if r[0] != '"' then BundleMalformed
    else FromName(r[1..], name)
  }

  /** From after the opening quote of a member's name on. */
  function FromName(s: string, name: string): Extraction
    decreases |s|, 1
  {
    match NameLength(s)
    case None => BundleMalformed
    case Some(n) => FromColon(s[n + 1..], s[..n] == name, name)
  }

  function Extract(document: string, name: string): Extraction {
    if |document| < 2 || document[0] != '{' || document[|document| - 1] != '}' then BundleMalformed
    else FromMember(document[1..], name)
  }

  // ---- the scan, by offsets

  method SkipSpaces(document: string, start: nat) returns (offset: nat)
    requires start <= |document|
    ensures start <= offset <= |document|
    ensures document[offset..] == SkipBlanks(document[start..])
  {
    offset := start;
    while offset < |document| && IsSpace(document[offset])
      invariant start <= offset <= |document|
      invariant SkipBlanks(document[offset..]) == SkipBlanks(document[start..])
    {
      assert document[offset..][1..] == document[offset + 1..];
      offset := offset + 1;
    }
  }

  method ScanName(document: string, start: nat) returns (offset: nat)
    requires start <= |document|
    ensures match NameLength(document[start..])
            case None => offset >= |document|
            case Some(n) => offset == start + n
  {
    offset := start;
    while offset < |document| && document[offset] != '"'
      invariant start <= offset
      invariant offset > |document| ==> NameLength(document[start..]) == None
      invariant offset <= |document| ==>
                  NameLength(document[start..]) == Plus(offset - start, NameLength(document[offset..]))
      decreases |document| - offset
    {
      if document[offset] == '\\' && offset + 2 <= |document| {
        assert document[offset..][2..] == document[offset + 2..];
      }
      assert document[offset..][1..] == document[offset + 1..];
      offset := offset + if document[offset] == '\\' then 2 else 1;
    }
  }

  /** Where a value still being scanned at this offset will end. */
  ghost function EndFrom(document: string, offset: nat, depth: nat, inString: bool): Option<nat> {
    if offset > |document| then None else Plus(offset, ValueLength(document[offset..], depth, inString))
  }

  lemma EndFromNext(document: string, offset: nat, depth: nat, inString: bool)
    requires offset < |document|
    ensures var c := document[offset];
            EndFrom(document, offset, depth, inString) ==
            if inString then
              if c == '\\' then EndFrom(document, offset + 2, depth, true)
              else EndFrom(document, offset + 1, depth, c != '"')
            else if c == '"' then EndFrom(document, offset + 1, depth, true)
            else if c == '{' || c == '[' then EndFrom(document, offset + 1, depth + 1, false)
            else if c == '}' || c == ']' then
              if depth == 0 then Some(offset) else EndFrom(document, offset + 1, depth - 1, false)
            else if c == ',' && depth == 0 then Some(offset)
            else EndFrom(document, offset + 1, depth, false)
  {
    var s := document[offset..];
    assert s[1..] == document[offset + 1..];
    if offset + 2 <= |document| {
      assert s[2..] == document[offset + 2..];
    }
  }

  /** Where the value ends, or nothing when a string or a bracket is left open. */
  method ScanValue(document: string, start: nat) returns (end: Option<nat>)
    requires start <= |document|
    ensures end == EndFrom(document, start, 0, false)
  {
    var offset, depth: nat, inString := start, 0, false;
    while offset < |document|
      invariant start <= offset
      invariant offset > |document| ==> inString
      invariant EndFrom(document, offset, depth, inString) == EndFrom(document, start, 0, false)
      decreases |document| - offset
    {
      EndFromNext(document, offset, depth, inString);
      var character := document[offset];
      if inString {
        if character == '\\' {
          offset := offset + 1;
        } else if character == '"' {
          inString := false;
        }
        offset := offset + 1;
        continue;
      }
      if character == '"' {
        inString := true;
        offset := offset + 1;
        continue;
      }
      if character == '{' || character == '[' {
        depth := depth + 1;
        offset := offset + 1;
        continue;
      }
      if character == '}' || character == ']' {
        if depth == 0 {
          return Some(offset);
        }
        depth := depth - 1;
        offset := offset + 1;
        continue;
      }
      if character == ',' && depth == 0 {
        return Some(offset);
      }
      offset := offset + 1;
    }
    return if inString || depth != 0 then None else Some(offset);
  }

  method RemoveTrailingSpaces(value: string) returns (text: string)
    ensures text == Trimmed(value)
  {
    text := value;
    while text != "" && IsSpace(text[|text| - 1])
      invariant Trimmed(text) == Trimmed(value)
      decreases |text|
    {
      text := text[..|text| - 1];
    }
  }

  /** The scan looks past blanks, and at one character after them. */
  lemma FromMemberCases(s: string, r: string, name: string)
    requires r == SkipBlanks(s)
    ensures FromMember(s, name) ==
            if r == "" || r[0] == '}' then EnvelopeMismatch
            else if r[0] == ',' then FromMember(r[1..], name)
            else if r[0] != '"' then BundleMalformed
            else FromName(r[1..], name)
  {}

  /** What one member settles: the answer, or the offset to go on from. */
  datatype Progress = Settled(result: Extraction) | GoOn(offset: nat)

  ghost predicate Leads(document: string, progress: Progress, after: nat, expected: Extraction, name: string) {
    match progress
    case Settled(result) => result == expected
    case GoOn(offset) => after < offset <= |document| && FromMember(document[offset..], name) == expected
  }

  /** A member from its value on. */
  method ReadValue(document: string, valueStart: nat, wanted: bool, name: string) returns (progress: Progress)
    requires 0 < valueStart <= |document|
    ensures Leads(document, progress, valueStart - 1, FromValue(document[valueStart..], wanted, name), name)
  {
    var end := ScanValue(document, valueStart);
    if end.None? {
      return Settled(BundleMalformed);
    }
    assert document[valueStart..][..end.value - valueStart] == document[valueStart..end.value];
    assert document[valueStart..][end.value - valueStart..] == document[end.value..];
    if wanted {
      var text := RemoveTrailingSpaces(document[valueStart..end.value]);
      return Settled(if text == "" then BundleMalformed else Found(text));
    }
    return GoOn(end.value);
  }

  /** A member from the closing quote of its name on. */
  method ReadColon(document: string, start: nat, wanted: bool, name: string) returns (progress: Progress)
    requires start <= |document|
    ensures Leads(document, progress, start, FromColon(document[start..], wanted, name), name)
  {
    var offset := SkipSpaces(document, start);
    if offset >= |document| || document[offset] != ':' {
      return Settled(BundleMalformed);
    }
    assert document[offset..][1..] == document[offset + 1..];
    offset := SkipSpaces(document, offset + 1);
    progress := ReadValue(document, offset, wanted, name);
  }

  /** A member from after the opening quote of its name on. */
  method ReadMember(document: string, keyStart: nat, name: string) returns (progress: Progress)
    requires keyStart <= |document|
    ensures Leads(document, progress, keyStart, FromName(document[keyStart..], name), name)
  {
    var offset := ScanName(document, keyStart);
    if offset >= |document| {
      return Settled(BundleMalformed);
    }
    var key := document[keyStart..offset];
    assert document[keyStart..][..offset - keyStart] == key;
    assert document[keyStart..][offset - keyStart + 1..] == document[offset + 1..];
    progress := ReadColon(document, offset + 1, key == name, name);
  }

  method ExtractTopLevelValue(document: string, name: string) returns (result: Extraction)
    ensures result == Extract(document, name)
  {
    if |document| < 2 || document[0] != '{' || document[|document| - 1] != '}' {
      return BundleMalformed;
    }
    var offset := 1;
    while offset < |document|
      invariant 1 <= offset <= |document|
      invariant FromMember(document[offset..], name) == FromMember(document[1..], name)
      decreases |document| - offset
    {
      ghost var before := document[offset..];
      offset := SkipSpaces(document, offset);
      FromMemberCases(before, document[offset..], name);
      if offset >= |document| || document[offset] == '}' {
        return EnvelopeMismatch;
      }
      assert document[offset..][1..] == document[offset + 1..];
      if document[offset] == ',' {
        offset := offset + 1;
        continue;
      }
      if document[offset] != '"' {
        return BundleMalformed;
      }
      var progress := ReadMember(document, offset + 1, name);
      if progress.Settled? {
        return progress.result;
      }
      offset := progress.offset;
    }
    assert document[|document|..] == "";
    return EnvelopeMismatch;
  }

  // ---- well-formed bundles

  /** JSON text with all its whitespace: a scalar is any number or literal. */
  datatype Json =
    | Scalar(token: string)
    | Str(raw: string)
    | Arr(blank: string, items: seq<Item>)
    | Obj(blank: string, fields: seq<Field>)

  datatype Item = Item(before: string, value: Json, after: string)

  datatype Field = Field(before: string, key: string, beforeColon: string, afterColon: string, value: Json, after: string)

  predicate IsBlank(s: string) {
    forall k | 0 <= k < |s| :: IsSpace(s[k])
  }

  predicate IsTokenCharacter(c: char) {
    !IsSpace(c) && c !in "\"\\{}[],:"
  }

  predicate IsToken(s: string) {
    s != "" && forall k | 0 <= k < |s| :: IsTokenCharacter(s[k])
  }

  /** Between the quotes of a string: no bare quote, and every backslash takes a character with it. */
  predicate IsRaw(s: string) {
    s == ""
    || (if s[0] == '\\' then |s| >= 2 && IsRaw(s[2..]) else s[0] != '"' && IsRaw(s[1..]))
  }

  predicate IsJson(v: Json)
    decreases v
  {
    match v
    case Scalar(token) => IsToken(token)
    case Str(raw) => IsRaw(raw)
    case Arr(blank, items) => IsBlank(blank) && forall k | 0 <= k < |items| :: IsItem(items[k])
    case Obj(blank, fields) => IsBlank(blank) && forall k | 0 <= k < |fields| :: IsField(fields[k])
  }

  predicate IsItem(i: Item)
    decreases i
  {
    IsBlank(i.before) && IsJson(i.value) && IsBlank(i.after)
  }

  predicate IsField(f: Field)
    decreases f
  {
    && IsBlank(f.before) && IsRaw(f.key) && IsBlank(f.beforeColon) && IsBlank(f.afterColon)
    && IsJson(f.value) && IsBlank(f.after)
  }

  function JsonText(v: Json): string
    decreases v
  {
    match v
    case Scalar(token) => token
    case Str(raw) => "\"" + raw + "\""
    case Arr(blank, items) => "[" + (if items == [] then blank else ItemsText(items)) + "]"
    case Obj(blank, fields) => "{" + (if fields == [] then blank else FieldsText(fields)) + "}"
  }

  function ItemsText(items: seq<Item>): string
    decreases items
  {
    if items == [] then ""
    else ItemText(items[0]) + (if |items| > 1 then "," else "") + ItemsText(items[1..])
  }

  function ItemText(i: Item): string
    decreases i
  {
    i.before + JsonText(i.value) + i.after
  }

  function FieldsText(fields: seq<Field>): string
    decreases fields
  {
    if fields == [] then ""
    else FieldText(fields[0]) + (if |fields| > 1 then "," else "") + FieldsText(fields[1..])
  }

  function FieldText(f: Field): string
    decreases f
  {
    f.before + "\"" + f.key + "\"" + f.beforeColon + ":" + f.afterColon + JsonText(f.value) + f.after
  }

  // ---- the scan passes over each piece

  /** The scan, from inside `depth` brackets, passes over this text and goes on as if it were not there. */
  ghost predicate Passes(text: string, tail: string, depth: nat) {
    ValueLength(text + tail, depth, false) == Plus(|text|, ValueLength(tail, depth, false))
  }

  lemma PassesBoth(first: string, second: string, tail: string, depth: nat)
    requires Passes(first, second + tail, depth) && Passes(second, tail, depth)
    ensures Passes(first + second, tail, depth)
  {
    assert first + second + tail == first + (second + tail);
  }

  lemma {:induction false} PassesPlain(text: string, tail: string, depth: nat)
    requires forall k | 0 <= k < |text| :: text[k] !in "\"{}[]" && (text[k] != ',' || depth > 0)
    ensures Passes(text, tail, depth)
  {
    if text == "" {
      assert text + tail == tail;
    } else {
      assert (text + tail)[0] == text[0] && (text + tail)[1..] == text[1..] + tail;
      assert text[0] !in "\"{}[]";
      PassesPlain(text[1..], tail, depth);
    }
  }

  lemma {:induction false} PassesRaw(raw: string, tail: string, depth: nat)
    requires IsRaw(raw)
    ensures ValueLength(raw + "\"" + tail, depth, true) == Plus(|raw| + 1, ValueLength(tail, depth, false))
    decreases |raw|
  {
    var s := raw + "\"" + tail;
    if raw == "" {
      assert s[0] == '"' && s[1..] == tail;
    } else if raw[0] == '\\' {
      assert s[0] == '\\' && s[2..] == raw[2..] + "\"" + tail;
      PassesRaw(raw[2..], tail, depth);
    } else {
      assert s[0] == raw[0] && s[1..] == raw[1..] + "\"" + tail;
      PassesRaw(raw[1..], tail, depth);
    }
  }

  lemma PassesString(raw: string, tail: string, depth: nat)
    requires IsRaw(raw)
    ensures Passes("\"" + raw + "\"", tail, depth)
  {
    var s := "\"" + raw + "\"" + tail;
    assert s[0] == '"' && s[1..] == raw + "\"" + tail;
    PassesRaw(raw, tail, depth);
  }

  /** Brackets around text that is passed over one level deeper. */
  lemma PassesBracketed(open: string, inner: string, close: string, tail: string, depth: nat)
    requires (open == "[" && close == "]") || (open == "{" && close == "}")
    requires Passes(inner, close + tail, depth + 1)
    ensures Passes(open + inner + close, tail, depth)
  {
    var s := open + inner + close + tail;
    assert s[0] == open[0] && s[1..] == inner + (close + tail);
    assert (close + tail)[1..] == tail;
  }

  lemma {:induction false} PassesJson(v: Json, tail: string, depth: nat)
    requires IsJson(v)
    ensures Passes(JsonText(v), tail, depth)
    decreases v
  {
    match v
    case Scalar(token) =>
      assert forall k | 0 <= k < |token| :: IsTokenCharacter(token[k]);
      PassesPlain(token, tail, depth);
    case Str(raw) => PassesString(raw, tail, depth);
    case Arr(blank, items) =>
      if items == [] { PassesPlain(blank, "]" + tail, depth + 1); } else { PassesItems(items, "]" + tail, depth + 1); }
      PassesBracketed("[", if items == [] then blank else ItemsText(items), "]", tail, depth);
    case Obj(blank, fields) =>
      if fields == [] { PassesPlain(blank, "}" + tail, depth + 1); } else { PassesFields(fields, "}" + tail, depth + 1); }
      PassesBracketed("{", if fields == [] then blank else FieldsText(fields), "}", tail, depth);
  }

  lemma {:induction false} PassesItems(items: seq<Item>, tail: string, depth: nat)
    requires depth > 0 && forall k | 0 <= k < |items| :: IsItem(items[k])
    ensures Passes(ItemsText(items), tail, depth)
    decreases items
  {
    if items == [] {
      PassesPlain("", tail, depth);
    } else {
      var comma, rest := if |items| > 1 then "," else "", ItemsText(items[1..]);
      PassesItems(items[1..], tail, depth);
      PassesPlain(comma, rest + tail, depth);
      PassesItem(items[0], comma + (rest + tail), depth);
      PassesThree(ItemText(items[0]), comma, rest, tail, depth);
    }
  }

  lemma PassesThree(a: string, b: string, c: string, tail: string, depth: nat)
    requires Passes(a, b + (c + tail), depth) && Passes(b, c + tail, depth) && Passes(c, tail, depth)
    ensures Passes(a + b + c, tail, depth)
  {
    assert a + b + c + tail == a + (b + (c + tail));
  }

  lemma {:induction false} PassesItem(i: Item, tail: string, depth: nat)
    requires depth > 0 && IsItem(i)
    ensures Passes(ItemText(i), tail, depth)
    decreases i
  {
    PassesPlain(i.after, tail, depth);
    PassesJson(i.value, i.after + tail, depth);
    PassesPlain(i.before, JsonText(i.value) + (i.after + tail), depth);
    PassesThree(i.before, JsonText(i.value), i.after, tail, depth);
  }

  lemma {:induction false} PassesFields(fields: seq<Field>, tail: string, depth: nat)
    requires depth > 0 && forall k | 0 <= k < |fields| :: IsField(fields[k])
    ensures Passes(FieldsText(fields), tail, depth)
    decreases fields
  {
    if fields == [] {
      PassesPlain("", tail, depth);
    } else {
      var comma, rest := if |fields| > 1 then "," else "", FieldsText(fields[1..]);
      PassesFields(fields[1..], tail, depth);
      PassesPlain(comma, rest + tail, depth);
      PassesField(fields[0], comma + (rest + tail), depth);
      PassesThree(FieldText(fields[0]), comma, rest, tail, depth);
    }
  }

  lemma {:induction false} PassesField(f: Field, tail: string, depth: nat)
    requires depth > 0 && IsField(f)
    ensures Passes(FieldText(f), tail, depth)
    decreases f
  {
    var name, colon, value := "\"" + f.key + "\"", f.beforeColon + ":" + f.afterColon, JsonText(f.value);
    PassesPlain(f.after, tail, depth);
    PassesJson(f.value, f.after + tail, depth);
    PassesBoth(value, f.after, tail, depth);
    PassesNameAndColon(f, value + f.after, tail, depth);
    assert FieldText(f) == f.before + (name + colon + (value + f.after));
  }

  lemma PassesNameAndColon(f: Field, end: string, tail: string, depth: nat)
    requires depth > 0 && IsField(f) && Passes(end, tail, depth)
    ensures Passes(f.before + ("\"" + f.key + "\"" + (f.beforeColon + ":" + f.afterColon) + end), tail, depth)
  {
    var name, colon := "\"" + f.key + "\"", f.beforeColon + ":" + f.afterColon;
    PassesPlain(colon, end + tail, depth);
    PassesString(f.key, colon + (end + tail), depth);
    PassesThree(name, colon, end, tail, depth);
    PassesPlain(f.before, name + colon + end + tail, depth);
    PassesBoth(f.before, name + colon + end, tail, depth);
  }

  // ---- the member asked for

  lemma {:induction false} SkipsBlank(blank: string, s: string)
    requires IsBlank(blank) && (s == "" || !IsSpace(s[0]))
    ensures SkipBlanks(blank + s) == s
  {
    if blank == "" {
      assert blank + s == s;
    } else {
      assert (blank + s)[1..] == blank[1..] + s;
      SkipsBlank(blank[1..], s);
    }
  }

  lemma {:induction false} NameEndsAtQuote(key: string, tail: string)
    requires IsRaw(key)
    ensures NameLength(key + "\"" + tail) == Some(|key|)
    decreases |key|
  {
    var s := key + "\"" + tail;
    if key != "" {
      if key[0] == '\\' {
        assert s[2..] == key[2..] + "\"" + tail;
        NameEndsAtQuote(key[2..], tail);
      } else {
        assert s[1..] == key[1..] + "\"" + tail;
        NameEndsAtQuote(key[1..], tail);
      }
    }
  }

  lemma {:induction false} TrimsBlank(text: string, blank: string)
    requires IsBlank(blank) && text != "" && !IsSpace(text[|text| - 1])
    ensures Trimmed(text + blank) == text
    decreases |blank|
  {
    if blank == "" {
      assert text + blank == text;
    } else {
      var front := blank[..|blank| - 1];
      assert (text + blank)[..|text + blank| - 1] == text + front;
      TrimsBlank(text, front);
    }
  }

  lemma JsonTextHasNoEdgeBlanks(v: Json)
    requires IsJson(v)
    ensures var text := JsonText(v);
            text != "" && !IsSpace(text[0]) && !IsSpace(text[|text| - 1])
  {
    match v
    case Scalar(token) => assert IsTokenCharacter(token[0]) && IsTokenCharacter(token[|token| - 1]);
    case Str(raw) => Edges("\"", raw, "\"");
    case Arr(blank, items) => Edges("[", if items == [] then blank else ItemsText(items), "]");
    case Obj(blank, fields) => Edges("{", if fields == [] then blank else FieldsText(fields), "}");
  }

  lemma Edges(open: string, inner: string, close: string)
    requires |open| == 1 && |close| == 1
    ensures (open + inner + close)[0] == open[0]
    ensures (open + inner + close)[|open + inner + close| - 1] == close[0]
  {}

  /** What follows a top-level value: the next member or the closing brace. */
  predicate EndsValue(rest: string) {
    rest != "" && (rest[0] == ',' || rest[0] == '}')
  }

  lemma ValueFound(v: Json, after: string, rest: string, wanted: bool, name: string)
    requires IsJson(v) && IsBlank(after) && EndsValue(rest)
    ensures FromValue(JsonText(v) + after + rest, wanted, name)
            == if wanted then Found(JsonText(v)) else FromMember(rest, name)
  {
    var text := JsonText(v);
    PassesPlain(after, rest, 0);
    PassesJson(v, after + rest, 0);
    PassesBoth(text, after, rest, 0);
    JsonTextHasNoEdgeBlanks(v);
    TrimsBlank(text, after);
    var all := text + after + rest;
    assert all[..|text + after|] == text + after && all[|text + after|..] == rest;
  }

  lemma ColonFound(f: Field, rest: string, wanted: bool, name: string)
    requires IsField(f) && EndsValue(rest)
    ensures FromColon(f.beforeColon + (":" + (f.afterColon + (JsonText(f.value) + f.after + rest))), wanted, name)
            == if wanted then Found(JsonText(f.value)) else FromMember(rest, name)
  {
    var value := JsonText(f.value) + f.after + rest;
    JsonTextHasNoEdgeBlanks(f.value);
    SkipsBlank(f.beforeColon, ":" + (f.afterColon + value));
    assert (":" + (f.afterColon + value))[1..] == f.afterColon + value;
    SkipsBlank(f.afterColon, value);
    ValueFound(f.value, f.after, rest, wanted, name);
  }

  lemma NameFound(f: Field, tail: string, name: string)
    requires IsRaw(f.key)
    ensures FromName(f.key + "\"" + tail, name) == FromColon(tail, f.key == name, name)
  {
    var s := f.key + "\"" + tail;
    NameEndsAtQuote(f.key, tail);
    assert s[..|f.key|] == f.key && s[|f.key| + 1..] == tail;
  }

  lemma FieldFound(f: Field, rest: string, name: string)
    requires IsField(f) && EndsValue(rest)
    ensures FromMember(FieldText(f) + rest, name)
            == if f.key == name then Found(JsonText(f.value)) else FromMember(rest, name)
  {
    var colon := f.beforeColon + (":" + (f.afterColon + (JsonText(f.value) + f.after + rest)));
    var quoted := "\"" + (f.key + "\"" + colon);
    FieldPieces(f, rest, colon, quoted);
    SkipsBlank(f.before, quoted);
    FromMemberCases(f.before + quoted, quoted, name);
    assert quoted[1..] == f.key + "\"" + colon;
    NameFound(f, colon, name);
    ColonFound(f, rest, f.key == name, name);
  }

  lemma FieldPieces(f: Field, rest: string, colon: string, quoted: string)
    requires colon == f.beforeColon + (":" + (f.afterColon + (JsonText(f.value) + f.after + rest)))
    requires quoted == "\"" + (f.key + "\"" + colon)
    ensures FieldText(f) + rest == f.before + quoted
  {}

  /** The first member of this name. */
  function FirstField(fields: seq<Field>, name: string): Option<Json> {
    if fields == [] then None
    else if fields[0].key == name then Some(fields[0].value)
    else FirstField(fields[1..], name)
  }

  function Answer(first: Option<Json>): Extraction {
    match first
    case None => EnvelopeMismatch
    case Some(value) => Found(JsonText(value))
  }

  lemma LastField(first: Field, name: string)
    requires IsField(first)
    ensures FromMember(FieldText(first) + "}", name)
            == if first.key == name then Found(JsonText(first.value)) else EnvelopeMismatch
  {
    FieldFound(first, "}", name);
    FromMemberCases("}", "}", name);
  }

  lemma EarlierField(first: Field, rest: string, name: string)
    requires IsField(first)
    ensures FromMember(FieldText(first) + ("," + rest), name)
            == if first.key == name then Found(JsonText(first.value)) else FromMember(rest, name)
  {
    var tail := "," + rest;
    FieldFound(first, tail, name);
    FromMemberCases(tail, tail, name);
    assert tail[1..] == rest;
  }

  lemma FieldsTextStarts(fields: seq<Field>, all: string, close: string)
    requires fields != [] && all == FieldsText(fields)
    ensures all + close ==
            if |fields| == 1 then FieldText(fields[0]) + close
            else FieldText(fields[0]) + ("," + (FieldsText(fields[1..]) + close))
  {
    CommaBetween(FieldText(fields[0]), FieldsText(fields[1..]), close);
    if |fields| == 1 {
      assert fields[1..] == [];
    }
  }

  lemma CommaBetween(a: string, b: string, close: string)
    ensures a + "," + b + close == a + ("," + (b + close))
    ensures a + "" + "" + close == a + close
  {}

  lemma {:induction false} FieldsFound(fields: seq<Field>, name: string)
    requires fields != [] && forall k | 0 <= k < |fields| :: IsField(fields[k])
    ensures FromMember(FieldsText(fields) + "}", name) == Answer(FirstField(fields, name))
  {
    FieldsTextStarts(fields, FieldsText(fields), "}");
    if |fields| == 1 {
      LastField(fields[0], name);
      assert FirstField(fields[1..], name) == None;
    } else {
      EarlierField(fields[0], FieldsText(fields[1..]) + "}", name);
      FieldsFound(fields[1..], name);
    }
  }

  /**
    On every well-formed object, whatever its whitespace, nesting and escapes, the scan returns the
    text of the first member whose raw name is the one asked for, or says there is none.
   */
  lemma ExtractIsFirstMember(document: Json, name: string)
    requires IsJson(document) && document.Obj?
    ensures Extract(JsonText(document), name) == Answer(FirstField(document.fields, name))
  {
    var inner := if document.fields == [] then document.blank else FieldsText(document.fields);
    var text := JsonText(document);
    Edges("{", inner, "}");
    assert text == "{" + inner + "}" && text[1..] == inner + "}";
    if document.fields == [] {
      SkipsBlank(inner, "}");
      FromMemberCases(inner + "}", "}", name);
    } else {
      FieldsFound(document.fields, name);
    }
  }

  /**
    A member that must be one exact string, quotes included: on a well-formed object it is accepted
    exactly when the first member of that name is that string.
   */
  method RequireTopLevelString(document: string, name: string, expected: string) returns (result: Option<Extraction>)
    ensures result == var value := Extract(document, name);
                      if value == Found("\"" + expected + "\"") then None
                      else if value.Found? then Some(EnvelopeMismatch) else Some(value)
    ensures forall json: Json | IsJson(json) && json.Obj? && document == JsonText(json) ::
              result == None <==> FirstField(json.fields, name) == Some(Str(expected))
  {
    forall json: Json | IsJson(json) && json.Obj? && document == JsonText(json)
      ensures Extract(document, name) == Found("\"" + expected + "\"") <==> FirstField(json.fields, name) == Some(Str(expected))
    {
      RequiredStringIsAString(json, name, expected);
    }
    var value := ExtractTopLevelValue(document, name);
    if !value.Found? {
      return Some(value);
    }
    var quoted := "\"" + expected + "\"";
    return if value.text != quoted then Some(EnvelopeMismatch) else None;
  }

  /** Such a member is never an object, a list, a number or a literal. */
  lemma RequiredStringIsAString(document: Json, name: string, expected: string)
    requires IsJson(document) && document.Obj?
    ensures Extract(JsonText(document), name) == Found("\"" + expected + "\"")
            <==> FirstField(document.fields, name) == Some(Str(expected))
  {
    ExtractIsFirstMember(document, name);
    var first := FirstField(document.fields, name);
    if first.Some? {
      FirstFieldIsJson(document.fields, name);
      OnlyStringsAreQuoted(first.value, expected);
    }
  }

  lemma {:induction false} FirstFieldIsJson(fields: seq<Field>, name: string)
    requires FirstField(fields, name).Some? && forall k | 0 <= k < |fields| :: IsField(fields[k])
    ensures IsJson(FirstField(fields, name).value)
  {
    if fields[0].key != name {
      FirstFieldIsJson(fields[1..], name);
    } else {
      assert IsField(fields[0]);
    }
  }

  lemma OnlyStringsAreQuoted(v: Json, expected: string)
    requires IsJson(v)
    ensures JsonText(v) == "\"" + expected + "\"" <==> v == Str(expected)
  {
    var quoted := "\"" + expected + "\"";
    assert quoted[0] == '"' && quoted[1..|quoted| - 1] == expected;
    match v
    case Scalar(token) => assert IsTokenCharacter(token[0]);
    case Str(raw) => assert ("\"" + raw + "\"")[1..|raw| + 1] == raw;
    case Arr(blank, items) => Edges("[", if items == [] then blank else ItemsText(items), "]");
    case Obj(blank, fields) => Edges("{", if fields == [] then blank else FieldsText(fields), "}");
  }
}
