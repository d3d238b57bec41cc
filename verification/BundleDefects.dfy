/** What the bundle scan makes of a document that is not well-formed: members before the first defect, and then the defect. */
module BundleDefects {
  import opened Options
  import opened BundleScan

  /** A value that is never closed: a string, or a bracket with perhaps a value inside. */
  datatype Open = OpenString(raw: string) | OpenBracket(bracket: char, inside: Option<Json>)

  /** The ways a member can be broken, from where it should start. */
  datatype Defect =
    | NoQuote(blank: string, c: char, more: string)
    | OpenName(blank: string, raw: string)
    | NoColon(blank: string, raw: string, gap: string, more: string)
    | NeverClosed(blank: string, raw: string, gap: string, gapAfter: string, value: Open)
    | NoValue(blank: string, gap: string, gapAfter: string, more: string)

  predicate IsOpen(o: Open) {
    match o
    case OpenString(raw) => IsRaw(raw)
    case OpenBracket(bracket, inside) => bracket in "{[" && (inside.Some? ==> IsJson(inside.value))
  }

  function OpenText(o: Open): string {
    match o
    case OpenString(raw) => "\"" + raw
    case OpenBracket(bracket, inside) => [bracket] + match inside { case None => "" case Some(v) => JsonText(v) }
  }

  predicate IsDefect(d: Defect) {
    && IsBlank(d.blank)
    && match d
       case NoQuote(_, c, _) => !IsSpace(c) && c !in "\",}"
       case OpenName(_, raw) => IsRaw(raw)
       case NoColon(_, raw, gap, more) => IsRaw(raw) && IsBlank(gap) && (more == "" || (!IsSpace(more[0]) && more[0] != ':'))
       case NeverClosed(_, raw, gap, gapAfter, value) => IsRaw(raw) && IsBlank(gap) && IsBlank(gapAfter) && IsOpen(value)
       case NoValue(_, gap, gapAfter, more) => IsBlank(gap) && IsBlank(gapAfter) && (more == "" || more[0] in ",}")
  }

  /** The broken member; one without a value is the one asked for, since the value of any other is not looked at. */
  function DefectText(d: Defect, name: string): string {
    match d
    case NoQuote(blank, c, more) => blank + ([c] + more)
    case OpenName(blank, raw) => blank + ("\"" + raw)
    case NoColon(blank, raw, gap, more) => blank + ("\"" + (raw + "\"" + (gap + more)))
    case NeverClosed(blank, raw, gap, gapAfter, value) =>
      blank + ("\"" + (raw + "\"" + (gap + (":" + (gapAfter + OpenText(value))))))
    case NoValue(blank, gap, gapAfter, more) => blank + ("\"" + (name + "\"" + (gap + (":" + (gapAfter + more)))))
  }

  lemma NoQuoteIsMalformed(blank: string, c: char, more: string, name: string)
    requires IsBlank(blank) && !IsSpace(c) && c !in "\",}"
    ensures FromMember(blank + ([c] + more), name) == BundleMalformed
  {
    SkipsBlank(blank, [c] + more);
    FromMemberCases(blank + ([c] + more), [c] + more, name);
  }

  lemma {:induction false} NameNeverEnds(raw: string)
    requires IsRaw(raw)
    ensures NameLength(raw) == None
    decreases |raw|
  {
    if raw != "" {
      NameNeverEnds(if raw[0] == '\\' then raw[2..] else raw[1..]);
    }
  }

  lemma QuoteAhead(blank: string, t: string, name: string)
    requires IsBlank(blank)
    ensures FromMember(blank + ("\"" + t), name) == FromName(t, name)
  {
    SkipsBlank(blank, "\"" + t);
    FromMemberCases(blank + ("\"" + t), "\"" + t, name);
    assert ("\"" + t)[1..] == t;
  }

  lemma NameAhead(blank: string, raw: string, tail: string, name: string)
    requires IsBlank(blank) && IsRaw(raw)
    ensures FromMember(blank + ("\"" + (raw + "\"" + tail)), name) == FromColon(tail, raw == name, name)
  {
    QuoteAhead(blank, raw + "\"" + tail, name);
    NameEndsAtQuote(raw, tail);
    var s := raw + "\"" + tail;
    assert s[..|raw|] == raw && s[|raw| + 1..] == tail;
  }

  lemma ColonAhead(gap: string, gapAfter: string, value: string, wanted: bool, name: string)
    requires IsBlank(gap) && IsBlank(gapAfter) && (value == "" || !IsSpace(value[0]))
    ensures FromColon(gap + (":" + (gapAfter + value)), wanted, name) == FromValue(value, wanted, name)
  {
    SkipsBlank(gap, ":" + (gapAfter + value));
    assert (":" + (gapAfter + value))[1..] == gapAfter + value;
    SkipsBlank(gapAfter, value);
  }

  lemma {:induction false} StringNeverEnds(raw: string)
    requires IsRaw(raw)
    ensures ValueLength(raw, 0, true) == None
    decreases |raw|
  {
    if raw != "" {
      StringNeverEnds(if raw[0] == '\\' then raw[2..] else raw[1..]);
    }
  }

  lemma ValueNeverEnds(o: Open)
    requires IsOpen(o)
    ensures ValueLength(OpenText(o), 0, false) == None
    ensures OpenText(o) != "" && !IsSpace(OpenText(o)[0])
  {
    match o
    case OpenString(raw) =>
      assert ("\"" + raw)[1..] == raw;
      StringNeverEnds(raw);
    case OpenBracket(bracket, inside) =>
      var text := match inside { case None => "" case Some(v) => JsonText(v) };
      assert OpenText(o)[1..] == text && text + "" == text;
      if inside.Some? {
        PassesJson(inside.value, "", 1);
      }
  }

  lemma DefectIsMalformed(d: Defect, name: string)
    requires IsDefect(d) && IsRaw(name)
    ensures FromMember(DefectText(d, name), name) == BundleMalformed
  {
    match d
    case NoQuote(blank, c, more) => NoQuoteIsMalformed(blank, c, more, name);
    case OpenName(blank, raw) =>
      QuoteAhead(blank, raw, name);
      NameNeverEnds(raw);
    case NoColon(blank, raw, gap, more) =>
      NameAhead(blank, raw, gap + more, name);
      SkipsBlank(gap, more);
    case NeverClosed(blank, raw, gap, gapAfter, value) =>
      NameAhead(blank, raw, gap + (":" + (gapAfter + OpenText(value))), name);
      ValueNeverEnds(value);
      ColonAhead(gap, gapAfter, OpenText(value), raw == name, name);
    case NoValue(blank, gap, gapAfter, more) =>
      NameAhead(blank, name, gap + (":" + (gapAfter + more)), name);
      ColonAhead(gap, gapAfter, more, true, name);
      assert more[..0] == "" && Trimmed("") == "";
  }

  /** The members before the defect, each with the comma after it. */
  function MembersText(fields: seq<Field>): string {
    if fields == [] then "" else FieldText(fields[0]) + ("," + MembersText(fields[1..]))
  }

  lemma {:induction false} MembersFirst(fields: seq<Field>, rest: string, name: string)
    requires forall k | 0 <= k < |fields| :: IsField(fields[k])
    ensures FromMember(MembersText(fields) + rest, name) ==
      match FirstField(fields, name)
      case None => FromMember(rest, name)
      case Some(value) => Found(JsonText(value))
  {
    if fields == [] {
      assert MembersText(fields) + rest == rest;
    } else {
      var more := MembersText(fields[1..]) + rest;
      assert MembersText(fields) + rest == FieldText(fields[0]) + ("," + more);
      EarlierField(fields[0], more, name);
      MembersFirst(fields[1..], rest, name);
    }
  }

  /**
    A document broken in one of its members: the member asked for is found if it stands before the
    defect, and otherwise the bundle is malformed, whatever follows and wherever the defect lies.
   */
  lemma FirstDefectDecides(document: string, fields: seq<Field>, d: Defect, name: string)
    requires IsDefect(d) && IsRaw(name) && forall k | 0 <= k < |fields| :: IsField(fields[k])
    requires document == "{" + (MembersText(fields) + DefectText(d, name))
    requires |document| >= 2 && document[|document| - 1] == '}'
    ensures Extract(document, name) ==
      match FirstField(fields, name)
      case None => BundleMalformed
      case Some(value) => Found(JsonText(value))
  {
    assert document[1..] == MembersText(fields) + DefectText(d, name);
    MembersFirst(fields, DefectText(d, name), name);
    DefectIsMalformed(d, name);
  }
}
