/**
  Canonical serialization (RFC 8785 section 3.2): members in order, no whitespace, the shortest
  escapes.
 */
module CanonicalWriter {
  import opened CanonicalValue
  import opened Decimals

  const HEX_DIGITS := "0123456789abcdef"

  /** How one byte of a string is written. */
  function EscapeOf(c: char): (text: string)
    ensures |text| > 0
  {
    if c == '"' then "\\\""
    else if c == '\\' then "\\\\"
    else if c as int == 0x08 then "\\b"
    else if c == '\t' then "\\t"
    else if c == '\n' then "\\n"
    else if c as int == 0x0C then "\\f"
    else if c == '\r' then "\\r"
    else if c as int < 0x20 then "\\u00" + [HEX_DIGITS[c as int / 16], HEX_DIGITS[c as int % 16]]
    else [c]
  }

  function Escaped(text: string): string {
    if text == [] then [] else EscapeOf(text[0]) + Escaped(text[1..])
  }

  function Quoted(text: string): string {
    "\"" + Escaped(text) + "\""
  }

  /** The canonical bytes of a value. */
  function Canonical(v: Value): string
    decreases v
  {
    match v
    case Null => "null"
    case Boolean(b) => if b then "true" else "false"
    case Integer(n) => IntegerText(n)
    case Text(t) => Quoted(t)
    case Array(es) => "[" + CanonicalElements(es) + "]"
    case Object(ms) => "{" + CanonicalMembers(ms) + "}"
  }

  function CanonicalElements(es: seq<Value>): string
    decreases es
  {
    if es == [] then []
    else if |es| == 1 then Canonical(es[0])
    else Canonical(es[0]) + "," + CanonicalElements(es[1..])
  }

  function CanonicalMembers(ms: seq<Member>): string
    decreases ms
  {
    if ms == [] then []
    else if |ms| == 1 then CanonicalMember(ms[0])
    else CanonicalMember(ms[0]) + "," + CanonicalMembers(ms[1..])
  }

  function CanonicalMember(m: Member): string
    decreases m
  {
    Quoted(m.key) + ":" + Canonical(m.value)
  }

  lemma {:induction false} EscapedConcat(left: string, right: string)
    ensures Escaped(left + right) == Escaped(left) + Escaped(right)
  {
    if left == [] {
      assert left + right == right;
    } else {
      assert (left + right)[1..] == left[1..] + right;
      EscapedConcat(left[1..], right);
    }
  }

  lemma {:induction false} ElementsSnoc(es: seq<Value>, e: Value)
    ensures CanonicalElements(es + [e]) ==
            CanonicalElements(es) + (if es == [] then "" else ",") + Canonical(e)
  {
    if es == [] {
      assert es + [e] == [e];
    } else {
      assert (es + [e])[1..] == es[1..] + [e];
      ElementsSnoc(es[1..], e);
    }
  }

  lemma {:induction false} MembersSnoc(ms: seq<Member>, m: Member)
    ensures CanonicalMembers(ms + [m]) ==
            CanonicalMembers(ms) + (if ms == [] then "" else ",") + CanonicalMember(m)
  {
    if ms == [] {
      assert ms + [m] == [m];
    } else {
      assert (ms + [m])[1..] == ms[1..] + [m];
      MembersSnoc(ms[1..], m);
    }
  }

  lemma EscapedUpTo(text: string, i: nat, start: string)
    requires i < |text|
    ensures start + Escaped(text[..i + 1]) == start + Escaped(text[..i]) + EscapeOf(text[i])
  {
    assert text[..i + 1] == text[..i] + [text[i]];
    EscapedConcat(text[..i], [text[i]]);
    assert Escaped([text[i]]) == EscapeOf(text[i]) + Escaped([]);
  }

  lemma ElementsUpTo(es: seq<Value>, i: nat, start: string)
    requires i < |es|
    ensures start + CanonicalElements(es[..i + 1]) ==
            start + CanonicalElements(es[..i]) + (if i == 0 then "" else ",") + Canonical(es[i])
  {
    assert es[..i + 1] == es[..i] + [es[i]];
    ElementsSnoc(es[..i], es[i]);
  }

  lemma MembersUpTo(ms: seq<Member>, i: nat, start: string)
    requires i < |ms|
    ensures start + CanonicalMembers(ms[..i + 1]) ==
            start + CanonicalMembers(ms[..i]) + (if i == 0 then "" else ",")
            + CanonicalMember(ms[i])
  {
    assert ms[..i + 1] == ms[..i] + [ms[i]];
    MembersSnoc(ms[..i], ms[i]);
  }

  /** The output buffer the serializer appends to. */
  class Output {
    var text: string

    constructor ()
      ensures text == []
    {
      text := [];
    }

    method AppendEscape(c: char)
      modifies this
      ensures text == old(text) + EscapeOf(c)
    {
      if c == '"' {
        text := text + "\\\"";
      } else if c == '\\' {
        text := text + "\\\\";
      } else if c as int == 0x08 {
        text := text + "\\b";
      } else if c == '\t' {
        text := text + "\\t";
      } else if c == '\n' {
        text := text + "\\n";
      } else if c as int == 0x0C {
        text := text + "\\f";
      } else if c == '\r' {
        text := text + "\\r";
      } else if c as int < 0x20 {
        text := text + "\\u00";
        text := text + [HEX_DIGITS[c as int / 16]];
        text := text + [HEX_DIGITS[c as int % 16]];
      } else {
        text := text + [c];
      }
    }

    method AppendEscapes(value: string)
      modifies this
      ensures text == old(text) + Escaped(value)
    {
      ghost var start := text;
      var i := 0;
      assert Escaped(value[..0]) == "";
      while i < |value|
        invariant 0 <= i <= |value|
        invariant text == start + Escaped(value[..i])
      {
        AppendEscape(value[i]);
        EscapedUpTo(value, i, start);
        i := i + 1;
      }
      assert value[..i] == value;
    }

    method AppendEscapedString(value: string)
      modifies this
      ensures text == old(text) + Quoted(value)
    {
      text := text + "\"";
      AppendEscapes(value);
      text := text + "\"";
    }

    method AppendCanonical(value: Value)
      modifies this
      ensures text == old(text) + Canonical(value)
      decreases value
    {
      match value {
        case Null => text := text + "null";
        case Boolean(b) => text := text + (if b then "true" else "false");
        case Integer(n) => text := text + IntegerText(n);
        case Text(t) => AppendEscapedString(t);
        case Array(es) => AppendArray(value);
        case Object(ms) => AppendObject(value);
      }
    }

    method AppendArray(value: Value)
      requires value.Array?
      modifies this
      ensures text == old(text) + Canonical(value)
      decreases value, 0
    {
      var es := value.elements;
      text := text + "[";
      ghost var start := text;
      var first := true;
      for i := 0 to |es|
        invariant first <==> i == 0
        invariant text == start + CanonicalElements(es[..i])
      {
        if !first {
          text := text + ",";
        }
        first := false;
        AppendCanonical(es[i]);
        ElementsUpTo(es, i, start);
      }
      assert es[..|es|] == es;
      text := text + "]";
      assert text == old(text) + Canonical(value);
    }

    method AppendMember(m: Member)
      modifies this
      ensures text == old(text) + CanonicalMember(m)
      decreases m
    {
      AppendEscapedString(m.key);
      text := text + ":";
      AppendCanonical(m.value);
    }

    method AppendObject(value: Value)
      requires value.Object?
      modifies this
      ensures text == old(text) + Canonical(value)
      decreases value, 0
    {
      var ms := value.members;
      text := text + "{";
      ghost var start := text;
      var first := true;
      for i := 0 to |ms|
        invariant first <==> i == 0
        invariant text == start + CanonicalMembers(ms[..i])
      {
        if !first {
          text := text + ",";
        }
        first := false;
        AppendMember(ms[i]);
        MembersUpTo(ms, i, start);
      }
      assert ms[..|ms|] == ms;
      text := text + "}";
      assert text == old(text) + Canonical(value);
    }
  }

  method SerializeCanonical(value: Value) returns (bytes: string)
    ensures bytes == Canonical(value)
  {
    var output := new Output();
    output.AppendCanonical(value);
    bytes := output.text;
  }
}
