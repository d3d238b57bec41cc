/**
  The record gate: every parsed record is within the limits, every value within the limits survives
  the round trip, and `IngestCanonicalBytes` admits exactly the canonical bytes.
 */
module CanonicalRecord {
  import opened Sorting
  import opened CanonicalValue
  import opened CanonicalWriter
  import opened CanonicalReader
  import opened CanonicalGate

  // ---- limits survive sorting

  lemma {:induction false} InsertMeasures(m: Member, sorted: seq<Member>)
    ensures var longer := Insert(MemberLess, m, sorted);
      && NodesOfMembers(longer) == Nodes(m.value) + NodesOfMembers(sorted)
      && DepthOfMembers(longer) == Max(Depth(m.value), DepthOfMembers(sorted))
      && (IsName(m.key) && Fits(m.value) && MembersFit(sorted) ==> MembersFit(longer))
  {
    if sorted == [] || MemberLess(m, sorted[0]) {
      assert ([m] + sorted)[1..] == sorted;
    } else {
      InsertMeasures(m, sorted[1..]);
      var tail := Insert(MemberLess, m, sorted[1..]);
      assert ([sorted[0]] + tail)[1..] == tail;
    }
  }

  lemma {:induction false} SortedMeasures(ms: seq<Member>)
    ensures |Sorted(ms)| == |ms| && NodesOfMembers(Sorted(ms)) == NodesOfMembers(ms)
    ensures DepthOfMembers(Sorted(ms)) == DepthOfMembers(ms)
    ensures MembersFit(ms) ==> MembersFit(Sorted(ms))
  {
    if ms != [] {
      SortedMeasures(ms[1..]);
      InsertMeasures(ms[0], Sorted(ms[1..]));
    }
  }

  lemma {:induction false} SnocMeasures(ms: seq<Member>, m: Member)
    ensures NodesOfMembers(ms + [m]) == NodesOfMembers(ms) + Nodes(m.value)
    ensures DepthOfMembers(ms + [m]) == Max(DepthOfMembers(ms), Depth(m.value))
    ensures MembersFit(ms) && IsName(m.key) && Fits(m.value) ==> MembersFit(ms + [m])
  {
    if ms == [] {
      assert ms + [m] == [m] && [m][1..] == [];
    } else {
      assert (ms + [m])[1..] == ms[1..] + [m];
      SnocMeasures(ms[1..], m);
    }
  }

  // ---- whatever the text, a parsed value is within the limits

  ghost predicate ValueWithin(v: Value, depth: nat, nodes: nat, nodes': nat) {
    && Fits(v) && depth + Depth(v) - 1 <= MAXIMUM_RECORD_DEPTH
    && nodes' == nodes + Nodes(v) <= MAXIMUM_RECORD_NODES
  }

  lemma {:induction false} ParsedValueFits(s: string, depth: nat, nodes: nat, p: Parsed)
    requires ParseValue(s, depth, nodes) == Ok(p)
    ensures ValueWithin(p.value, depth, nodes, p.nodes)
    decreases |s|, 0
  {
    if s[0] == '{' {
      ParsedObjectFits(s[1..], depth, nodes + 1, p);
    } else if s[0] == '[' {
      ParsedArrayFits(s[1..], depth, nodes + 1, p);
    } else if s[0] != '"' {
      ParsedTokenFits(s, nodes + 1, p);
    }
  }

  lemma ParsedTokenFits(s: string, nodes: nat, p: Parsed)
    requires s != [] && ParseToken(s, nodes) == Ok(p)
    ensures Fits(p.value) && Depth(p.value) == 1 && Nodes(p.value) == 1 && p.nodes == nodes
  {
  }

  lemma {:induction false} ParsedArrayFits(s: string, depth: nat, nodes: nat, p: Parsed)
    requires ParseArray(s, depth, nodes) == Ok(p) && depth <= MAXIMUM_RECORD_DEPTH && 1 <= nodes <= MAXIMUM_RECORD_NODES
    ensures ValueWithin(p.value, depth, nodes - 1, p.nodes)
    decreases |s|, 2
  {
    var t := SkipSpace(s);
    if t != [] && t[0] == ']' {
    } else {
      ParsedElementsFit(t, depth + 1, nodes, ParseElements(t, depth + 1, nodes).value);
    }
  }

  lemma {:induction false} ParsedElementsFit(s: string, depth: nat, nodes: nat, list: ParsedElements)
    requires ParseElements(s, depth, nodes) == Ok(list)
    ensures ElementsFit(list.elements) && depth + DepthOfElements(list.elements) - 1 <= MAXIMUM_RECORD_DEPTH
    ensures list.nodes == nodes + NodesOfElements(list.elements) <= MAXIMUM_RECORD_NODES
    decreases |s|, 1
  {
    var head := ParseValue(SkipSpace(s), depth, nodes).value;
    ParsedValueFits(SkipSpace(s), depth, nodes, head);
    var t := SkipSpace(head.rest);
    if t[0] == ',' {
      var tail := ParseElements(t[1..], depth, head.nodes).value;
      ParsedElementsFit(t[1..], depth, head.nodes, tail);
      assert list.elements[1..] == tail.elements;
    }
  }

  lemma {:induction false} ParsedObjectFits(s: string, depth: nat, nodes: nat, p: Parsed)
    requires ParseObject(s, depth, nodes) == Ok(p) && depth <= MAXIMUM_RECORD_DEPTH && 1 <= nodes <= MAXIMUM_RECORD_NODES
    ensures ValueWithin(p.value, depth, nodes - 1, p.nodes) && p.value.Object?
    decreases |s|, 2
  {
    var t := SkipSpace(s);
    if !(t != [] && t[0] == '}') {
      var list := ParseMembers(t, depth + 1, nodes, []).value;
      ParsedMembersFit(t, depth + 1, nodes, [], list);
      SortedObjectFits(list.members, depth, nodes, list.nodes);
    }
  }

  /** Sorting the members read changes none of the measures. */
  lemma SortedObjectFits(members: seq<Member>, depth: nat, nodes: nat, after: nat)
    requires MembersFit(members) && |members| <= MAXIMUM_RECORD_MEMBERS && ValidKeys(members) && DistinctKeys(members)
    requires depth + DepthOfMembers(members) <= MAXIMUM_RECORD_DEPTH && 1 <= nodes && depth <= MAXIMUM_RECORD_DEPTH
    requires after == nodes + NodesOfMembers(members) <= MAXIMUM_RECORD_NODES
    ensures ValueWithin(MakeObject(members), depth, nodes - 1, after)
  {
    SortedMeasures(members);
    SortedAscends(members);
  }

  /** One unfolding of the member reader, with its parts named. */
  lemma MembersParts(s: string, depth: nat, nodes: nat, before: seq<Member>, list: ParsedMembers)
    returns (m: Member, u: string, head: Parsed, w: string)
    requires ValidKeys(before) && DistinctKeys(before)
    requires ParseMembers(s, depth, nodes, before) == Ok(list)
    ensures IsName(m.key) && |before| < MAXIMUM_RECORD_MEMBERS && |u| < |s|
    ensures ParseValue(u, depth, nodes) == Ok(head) && head.value == m.value && |w| < |u|
    ensures ValidKeys(before + [m]) && DistinctKeys(before + [m])
    ensures if w != [] && w[0] == '}' then list.members == before + [m] && list.nodes == head.nodes
            else w != [] && ParseMembers(w[1..], depth, head.nodes, before + [m]) == Ok(list)
  {
    var t := SkipSpace(s);
    var name := ReadString(t[1..]).value;
    u := SkipSpace(SkipSpace(name.rest)[1..]);
    head := ParseValue(u, depth, nodes).value;
    m := Member(name.text, head.value);
    w := SkipSpace(head.rest);
  }

  lemma {:induction false} ParsedMembersFit(
    s: string, depth: nat, nodes: nat, before: seq<Member>, list: ParsedMembers)
    requires ValidKeys(before) && DistinctKeys(before) && MembersFit(before)
    requires depth + DepthOfMembers(before) - 1 <= MAXIMUM_RECORD_DEPTH
    requires ParseMembers(s, depth, nodes, before) == Ok(list)
    ensures MembersFit(list.members) && |list.members| <= MAXIMUM_RECORD_MEMBERS
    ensures depth + DepthOfMembers(list.members) - 1 <= MAXIMUM_RECORD_DEPTH
    ensures list.nodes == nodes + NodesOfMembers(list.members) - NodesOfMembers(before) <= MAXIMUM_RECORD_NODES
    ensures ValidKeys(list.members) && DistinctKeys(list.members)
    decreases |s|, 1
  {
    var m, u, head, w := MembersParts(s, depth, nodes, before, list);
    ParsedValueFits(u, depth, nodes, head);
    SnocMeasures(before, m);
    if w[0] != '}' {
      ParsedMembersFit(w[1..], depth, head.nodes, before + [m], list);
    }
  }

  /** Whatever bytes are read, a record that comes out is within every limit. */
  lemma ParsedRecordIsAdmissible(bytes: string, v: Value)
    requires ParseRecord(bytes) == Ok(v)
    ensures Admissible(v)
  {
    var p := ParseValue(bytes, 1, 0).value;
    ParsedValueFits(bytes, 1, 0, p);
    ParsedObjectFits(bytes[1..], 1, 1, p);
  }

  // ---- the two round trips

  lemma CanonicalObjectEnds(v: Value)
    requires v.Object?
    ensures Canonical(v) != [] && Canonical(v)[0] == '{' && Canonical(v)[|Canonical(v)| - 1] == '}'
  {
  }

  /** Reading what was written gives back the value, for every value within the limits. */
  lemma RecordRoundTrip(v: Value)
    requires Admissible(v) && |Canonical(v)| <= MAXIMUM_RECORD_BYTES
    ensures ParseRecord(Canonical(v)) == Ok(v)
  {
    var s := Canonical(v);
    assert s == s + [];
    CanonicalReads(v, s, [], 1, 0);
    CanonicalObjectEnds(v);
    assert ValueAt(s, 1, 0) == Ok(Parsed(v, [], Nodes(v)));
    assert s[0] != 0xEF as char;
  }

  /** Two values within the limits never share their canonical bytes, however long these are. */
  lemma SerializationIsInjective(u: Value, v: Value)
    requires Admissible(u) && Admissible(v) && Canonical(u) == Canonical(v)
    ensures u == v
  {
    var s := Canonical(u);
    assert s == s + [];
    CanonicalReads(u, s, [], 1, 0);
    CanonicalReads(v, s, [], 1, 0);
    assert Ok(Parsed(u, [], Nodes(u))) == ValueAt(s, 1, 0) == Ok(Parsed(v, [], Nodes(v)));
  }

  /** The bytes are the canonical form of this value, and the value is a record. */
  ghost predicate IsCanonicalFormOf(bytes: string, v: Value) {
    Admissible(v) && bytes == Canonical(v) && |bytes| <= MAXIMUM_RECORD_BYTES
  }

  /** Parse, serialize, compare: never a corrected form. */
  method IngestCanonicalBytes(claimed: string) returns (result: Result<Value>)
    ensures result.Ok? ==> IsCanonicalFormOf(claimed, result.value)
    ensures forall v | IsCanonicalFormOf(claimed, v) :: result == Ok(v)
    ensures result == Rejected(NoncanonicalBytes) <==>
            ParseRecord(claimed).Ok? && !(exists v :: IsCanonicalFormOf(claimed, v))
    ensures ParseRecord(claimed).Rejected? ==> result == ParseRecord(claimed)
  {
    NeverNoncanonical(claimed);
    forall v | IsCanonicalFormOf(claimed, v) ensures ParseRecord(claimed) == Ok(v) {
      RecordRoundTrip(v);
    }
    var parsed := ParseRecord(claimed);
    if parsed.Rejected? {
      return parsed;
    }
    ParsedRecordIsAdmissible(claimed, parsed.value);
    var canonical := SerializeCanonical(parsed.value);
    if canonical != claimed {
      return Rejected(NoncanonicalBytes);
    }
    assert IsCanonicalFormOf(claimed, parsed.value);
    return parsed;
  }

  // ---- the reader itself never reports NoncanonicalBytes

  lemma NeverNoncanonical(bytes: string)
    ensures ParseRecord(bytes) != Rejected(NoncanonicalBytes)
  {
    ValueRefusals(bytes, 1, 0);
  }

  lemma {:induction false} ValueRefusals(s: string, depth: nat, nodes: nat)
    ensures ParseValue(s, depth, nodes) != Rejected(NoncanonicalBytes)
    decreases |s|, 0
  {
    if s != [] && s[0] == '{' {
      var t := SkipSpace(s[1..]);
      MembersRefusals(t, depth + 1, nodes + 1, []);
    } else if s != [] && s[0] == '[' {
      var t := SkipSpace(s[1..]);
      ElementsRefusals(t, depth + 1, nodes + 1);
    }
  }

  lemma {:induction false} ElementsRefusals(s: string, depth: nat, nodes: nat)
    ensures ParseElements(s, depth, nodes) != Rejected(NoncanonicalBytes)
    decreases |s|, 1
  {
    ValueRefusals(SkipSpace(s), depth, nodes);
    var head := ParseValue(SkipSpace(s), depth, nodes);
    if head.Ok? && SkipSpace(head.value.rest) != [] {
      ElementsRefusals(SkipSpace(head.value.rest)[1..], depth, head.value.nodes);
    }
  }

  lemma {:induction false} MembersRefusals(s: string, depth: nat, nodes: nat, before: seq<Member>)
    requires ValidKeys(before) && DistinctKeys(before)
    ensures ParseMembers(s, depth, nodes, before) != Rejected(NoncanonicalBytes)
    decreases |s|, 1
  {
    var t := SkipSpace(s);
    if t != [] && t[0] == '"' && ReadString(t[1..]).Ok? {
      var name := ReadString(t[1..]).value;
      var u := SkipSpace(name.rest);
      if u != [] && u[0] == ':' && !HasKey(before, name.text) {
        ValueRefusals(SkipSpace(u[1..]), depth, nodes);
        var head := ParseValue(SkipSpace(u[1..]), depth, nodes);
        if head.Ok? && SkipSpace(head.value.rest) != [] {
          MembersRefusals(SkipSpace(head.value.rest)[1..], depth, head.value.nodes,
                          before + [Member(name.text, head.value.value)]);
        }
      }
    }
  }
}
