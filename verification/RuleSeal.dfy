/**
  The integrity seal of a rule set: 64-bit FNV-1a over the rules' members, written as sixteen
  hexadecimal digits.
 */
module RuleSeal {
  import opened Lexicographic

  type byte = b: int | 0 <= b < 256

  /** A 64-bit state: its arithmetic wraps round. */
  type Word = w: int | 0 <= w < 0x1_0000_0000_0000_0000

  type Text = seq<byte>

  datatype Rule = Rule(id: Text, authority: Text, title: Text, subjectKind: Text, severity: Text, landsWith: Text)

  const OFFSET_BASIS: Word := 0xcbf2_9ce4_8422_2325

  const UNIT_SEPARATOR: byte := 0x1f
  const RECORD_SEPARATOR: byte := 0x1e

  const HEX_DIGITS := "0123456789abcdef"

  // ---- the sealed payload

  function Members(r: Rule): (m: seq<Text>)
    ensures |m| == 6
  {
    [r.id, r.authority, r.title, r.subjectKind, r.severity, r.landsWith]
  }

  function MembersPayload(members: seq<Text>): Text {
    if members == [] then [] else members[0] + [UNIT_SEPARATOR] + MembersPayload(members[1..])
  }

  function RulePayload(r: Rule): Text {
    MembersPayload(Members(r)) + [RECORD_SEPARATOR]
  }

  function Payload(rules: seq<Rule>): Text {
    if rules == [] then [] else RulePayload(rules[0]) + Payload(rules[1..])
  }

  // ---- the hash and its digits

  /** Exclusive or of two `bits`-bit numbers, bit by bit. */
  function Xor(a: nat, b: nat, bits: nat): nat {
    if bits == 0 then 0 else (if a % 2 == b % 2 then 0 else 1) + 2 * Xor(a / 2, b / 2, bits - 1)
  }

  lemma {:induction false} XorTwice(a: nat, b: nat, bits: nat)
    ensures Xor(Xor(a, b, bits), b, bits) == Xor(a, 0, bits)
  {
    if bits > 0 {
      XorTwice(a / 2, b / 2, bits - 1);
    }
  }

  lemma XorWithByte(a: byte, b: byte)
    ensures Xor(a, b, 8) < 256 && Xor(a, 0, 8) == a
  {
    XorFits(a, b, 8);
    XorFits(a, 0, 8);
  }

  function Doubled(bits: nat): nat {
    if bits == 0 then 1 else 2 * Doubled(bits - 1)
  }

  lemma {:induction false} XorFits(a: nat, b: nat, bits: nat)
    ensures Xor(a, b, bits) < Doubled(bits)
    ensures a < Doubled(bits) ==> Xor(a, 0, bits) == a
  {
    if bits > 0 {
      XorFits(a / 2, b / 2, bits - 1);
    }
  }

  /** Exclusive or with a byte only reaches the low eight bits of the state. */
  function Toggled(hash: Word, b: byte): Word {
    hash - hash % 256 + XorByte(hash % 256, b)
  }

  function Mixed(hash: Word, b: byte): Word {
    Multiplied(Toggled(hash, b))
  }

  function XorByte(a: byte, b: byte): byte {
    XorWithByte(a, b);
    Xor(a, b, 8)
  }

  /** Multiplication by the FNV prime. */
  function Multiplied(w: Word): Word {
    w * 0x100_0000_01b3 % 0x1_0000_0000_0000_0000
  }

  function Absorbed(hash: Word, text: Text): Word
    decreases |text|
  {
    if text == [] then hash else Absorbed(Mixed(hash, text[0]), text[1..])
  }

  function Power(n: nat): nat {
    if n == 0 then 1 else 16 * Power(n - 1)
  }

  /** Shifted right, four bits at a time. */
  function Shifted(n: nat, shift: nat): nat {
    if shift == 0 then n else Shifted(n, shift - 1) / 16
  }

  /** The last `digits` hexadecimal digits, most significant first. */
  function Hex(n: nat, digits: nat): string {
    if digits == 0 then "" else Hex(n / 16, digits - 1) + [HEX_DIGITS[n % 16]]
  }

  function Seal(rules: seq<Rule>): string {
    "fnv1a64:" + Hex(Absorbed(OFFSET_BASIS, Payload(rules)), 16)
  }

  lemma {:induction false} AbsorbedConcat(hash: Word, a: Text, b: Text)
    ensures Absorbed(hash, a + b) == Absorbed(Absorbed(hash, a), b)
    decreases |a|
  {
    if a == [] {
      assert a + b == b;
    } else {
      assert (a + b)[1..] == a[1..] + b;
      AbsorbedConcat(Mixed(hash, a[0]), a[1..], b);
    }
  }

  method Absorb(hash: Word, text: Text) returns (mixed: Word)
    ensures mixed == Absorbed(hash, text)
  {
    mixed := hash;
    for k := 0 to |text|
      invariant Absorbed(mixed, text[k..]) == Absorbed(hash, text)
    {
      assert text[k..][0] == text[k] && text[k..][1..] == text[k + 1..];
      mixed := Toggled(mixed, text[k]);
      mixed := Multiplied(mixed);
    }
  }

  lemma MemberAhead(members: seq<Text>, k: nat)
    requires k < |members|
    ensures MembersPayload(members[k..]) + [RECORD_SEPARATOR]
            == members[k] + ([UNIT_SEPARATOR] + (MembersPayload(members[k + 1..]) + [RECORD_SEPARATOR]))
  {
    assert members[k..][0] == members[k] && members[k..][1..] == members[k + 1..];
  }

  method AbsorbRule(hash: Word, r: Rule) returns (mixed: Word)
    ensures mixed == Absorbed(hash, RulePayload(r))
  {
    mixed := hash;
    var members := Members(r);
    ghost var all := MembersPayload(members) + [RECORD_SEPARATOR];
    for k := 0 to 6
      invariant Absorbed(mixed, MembersPayload(members[k..]) + [RECORD_SEPARATOR]) == Absorbed(hash, all)
    {
      ghost var rest := MembersPayload(members[k + 1..]) + [RECORD_SEPARATOR];
      MemberAhead(members, k);
      AbsorbedConcat(mixed, members[k], [UNIT_SEPARATOR] + rest);
      mixed := Absorb(mixed, members[k]);
      AbsorbedConcat(mixed, [UNIT_SEPARATOR], rest);
      mixed := Absorb(mixed, [UNIT_SEPARATOR]);
    }
    assert MembersPayload(members[6..]) + [RECORD_SEPARATOR] == [RECORD_SEPARATOR];
    mixed := Absorb(mixed, [RECORD_SEPARATOR]);
  }

  method SealRules(rules: seq<Rule>) returns (sealed: string)
    ensures sealed == Seal(rules)
  {
    var hash := OFFSET_BASIS;
    for k := 0 to |rules|
      invariant Absorbed(hash, Payload(rules[k..])) == Absorbed(OFFSET_BASIS, Payload(rules))
    {
      assert rules[k..][0] == rules[k] && rules[k..][1..] == rules[k + 1..];
      AbsorbedConcat(hash, RulePayload(rules[k]), Payload(rules[k + 1..]));
      hash := AbsorbRule(hash, rules[k]);
    }
    sealed := AppendDigits("fnv1a64:", hash);
  }

  method AppendDigits(prefix: string, hash: Word) returns (sealed: string)
    ensures sealed == prefix + Hex(hash, 16)
  {
    sealed := prefix;
    var shift := 15;
    HashFits(hash);
    ShiftedFits(hash, 16, 16);
    while shift >= 0
      invariant -1 <= shift <= 15
      invariant sealed == prefix + Hex(Shifted(hash, shift + 1), 15 - shift)
      decreases shift
    {
      sealed := sealed + [HEX_DIGITS[Shifted(hash, shift) % 16]];
      shift := shift - 1;
    }
  }

  lemma {:induction false} ShiftedFits(n: nat, digits: nat, shift: nat)
    requires n < Power(digits) && shift <= digits
    ensures Shifted(n, shift) < Power(digits - shift)
  {
    if shift > 0 {
      ShiftedFits(n, digits, shift - 1);
    }
  }

  // ---- nothing is lost on the way to the seal

  lemma TogglingKeepsApart(g: Word, h: Word, a: byte, b: byte)
    requires Toggled(g, a) == Toggled(h, b)
    ensures a == b ==> g == h
    ensures g == h ==> a == b
  {
    var x, y := XorByte(g % 256, a), XorByte(h % 256, b);
    WithoutLowByte(g);
    WithoutLowByte(h);
    LowBytes(g - g % 256, x, h - h % 256, y);
    if a == b {
      XorKeepsApart(g % 256, h % 256, b);
    }
    if g == h {
      XorCommutes(g % 256, a, 8);
      XorCommutes(g % 256, b, 8);
      XorKeepsApart(a, b, g % 256);
    }
  }

  lemma WithoutLowByte(w: Word)
    ensures (w - w % 256) % 256 == 0
  {}

  /** One step is a bijection of the state: the multiplier is odd and has an inverse. */
  lemma MixingKeepsStatesApart(g: Word, h: Word, b: byte)
    requires Mixed(g, b) == Mixed(h, b)
    ensures g == h
  {
    Unmultiply(Toggled(g, b), Toggled(h, b));
    TogglingKeepsApart(g, h, b, b);
  }

  /** And from one state, different bytes lead to different states. */
  lemma MixingKeepsBytesApart(h: Word, a: byte, b: byte)
    requires Mixed(h, a) == Mixed(h, b)
    ensures a == b
  {
    Unmultiply(Toggled(h, a), Toggled(h, b));
    TogglingKeepsApart(h, h, a, b);
  }

  lemma LowBytes(p: nat, x: byte, q: nat, y: byte)
    requires p % 256 == 0 && q % 256 == 0 && p + x == q + y
    ensures p == q && x == y
  {}

  lemma XorKeepsApart(a: byte, c: byte, b: byte)
    requires XorByte(a, b) == XorByte(c, b)
    ensures a == c
  {
    XorTwice(a, b, 8);
    XorTwice(c, b, 8);
    XorWithByte(a, 0);
    XorWithByte(c, 0);
  }

  lemma {:induction false} XorCommutes(a: nat, b: nat, bits: nat)
    ensures Xor(a, b, bits) == Xor(b, a, bits)
  {
    if bits > 0 {
      XorCommutes(a / 2, b / 2, bits - 1);
    }
  }

  /** Multiplying by the inverse of the prime brings every 64-bit number back. */
  lemma Inverse(w: Word)
    ensures Multiplied(w) * 0xce96_5057_aff6_957b % 0x1_0000_0000_0000_0000 == w
  {
    var product := w * 0x100_0000_01b3;
    var m := product % 0x1_0000_0000_0000_0000;
    var k := product / 0x1_0000_0000_0000_0000;
    assert m * 0xce96_5057_aff6_957b == w + 0x1_0000_0000_0000_0000 * (w * 0xce_9650_590f - k * 0xce96_5057_aff6_957b);
  }

  lemma Unmultiply(x: Word, y: Word)
    requires Multiplied(x) == Multiplied(y)
    ensures x == y
  {
    Inverse(x);
    Inverse(y);
  }

  lemma {:induction false} AbsorbingKeepsStatesApart(g: Word, h: Word, text: Text)
    requires Absorbed(g, text) == Absorbed(h, text)
    ensures g == h
    decreases |text|
  {
    if text != [] {
      AbsorbingKeepsStatesApart(Mixed(g, text[0]), Mixed(h, text[0]), text[1..]);
      MixingKeepsStatesApart(g, h, text[0]);
    }
  }

  lemma OneByteChangesTheHash(hash: Word, before: Text, a: byte, b: byte, after: Text)
    requires a != b
    ensures Absorbed(hash, before + [a] + after) != Absorbed(hash, before + [b] + after)
  {
    var h := Absorbed(hash, before);
    AbsorbedConcat(hash, before + [a], after);
    AbsorbedConcat(hash, before, [a]);
    AbsorbedConcat(hash, before + [b], after);
    AbsorbedConcat(hash, before, [b]);
    assert Absorbed(h, [a]) == Mixed(h, a) && Absorbed(h, [b]) == Mixed(h, b);
    if Absorbed(Mixed(h, a), after) == Absorbed(Mixed(h, b), after) {
      AbsorbingKeepsStatesApart(Mixed(h, a), Mixed(h, b), after);
      MixingKeepsBytesApart(h, a, b);
    }
  }

  lemma HashFits(hash: Word)
    ensures hash < Power(16)
  {
    assert Power(4) == 0x1_0000;
    assert Power(8) == 0x1_0000 * 0x1_0000;
    assert Power(12) == 0x1_0000 * 0x1_0000 * 0x1_0000;
    assert Power(16) == 0x1_0000 * 0x1_0000 * 0x1_0000 * 0x1_0000;
  }

  /** The digits determine the number. */
  lemma {:induction false} HexIsInjective(m: nat, n: nat, digits: nat)
    requires m < Power(digits) && n < Power(digits) && Hex(m, digits) == Hex(n, digits)
    ensures m == n
  {
    if digits > 0 {
      var front, last := Hex(m / 16, digits - 1), Hex(n / 16, digits - 1);
      assert (front + [HEX_DIGITS[m % 16]])[..|front|] == front;
      assert (last + [HEX_DIGITS[n % 16]])[..|last|] == last;
      HexLength(m / 16, digits - 1);
      HexLength(n / 16, digits - 1);
      HexIsInjective(m / 16, n / 16, digits - 1);
      DigitsDiffer(m % 16, n % 16);
    }
  }

  lemma {:induction false} HexLength(n: nat, digits: nat)
    ensures |Hex(n, digits)| == digits
  {
    if digits > 0 {
      HexLength(n / 16, digits - 1);
    }
  }

  lemma DigitsDiffer(a: nat, b: nat)
    requires a < 16 && b < 16 && HEX_DIGITS[a] == HEX_DIGITS[b]
    ensures a == b
  {}

  // ---- one byte of one member

  /** The same rule but for one byte of one member. */
  ghost predicate DiffersAt(r: Rule, s: Rule, m: nat, i: nat) {
    && m < 6 && i < |Members(r)[m]| && |Members(s)[m]| == |Members(r)[m]|
    && Members(s)[m][i] != Members(r)[m][i]
    && Members(s) == Members(r)[m := Members(r)[m][i := Members(s)[m][i]]]
  }

  lemma {:induction false} MemberInPayload(members: seq<Text>, m: nat) returns (before: Text, after: Text)
    requires m < |members|
    ensures forall x :: MembersPayload(members[m := x]) == before + x + after
    decreases |members|
  {
    if m == 0 {
      before, after := [], [UNIT_SEPARATOR] + MembersPayload(members[1..]);
      forall x ensures MembersPayload(members[m := x]) == before + x + after {
        assert members[0 := x][1..] == members[1..];
      }
    } else {
      var front, back := MemberInPayload(members[1..], m - 1);
      before, after := members[0] + [UNIT_SEPARATOR] + front, back;
      forall x ensures MembersPayload(members[m := x]) == before + x + after {
        assert members[m := x][1..] == members[1..][m - 1 := x];
        assert MembersPayload(members[1..][m - 1 := x]) == front + x + back;
        assert members[0] + [UNIT_SEPARATOR] + (front + x + back) == before + x + after;
      }
    }
  }

  lemma {:induction false} RuleInPayload(rules: seq<Rule>, n: nat) returns (before: Text, after: Text)
    requires n < |rules|
    ensures forall r :: Payload(rules[n := r]) == before + RulePayload(r) + after
    decreases |rules|
  {
    if n == 0 {
      before, after := [], Payload(rules[1..]);
      forall r ensures Payload(rules[n := r]) == before + RulePayload(r) + after {
        assert rules[0 := r][1..] == rules[1..];
      }
    } else {
      var front, back := RuleInPayload(rules[1..], n - 1);
      before, after := RulePayload(rules[0]) + front, back;
      forall r ensures Payload(rules[n := r]) == before + RulePayload(r) + after {
        assert rules[n := r][1..] == rules[1..][n - 1 := r];
      }
    }
  }

  lemma MembersDetermine(r: Rule, s: Rule)
    requires Members(r) == Members(s)
    ensures r == s
  {
    var m, n := Members(r), Members(s);
    assert m[0] == n[0] && m[1] == n[1] && m[2] == n[2] && m[3] == n[3] && m[4] == n[4] && m[5] == n[5];
  }

  /** Two rules that differ in one byte, as payloads. */
  lemma RulePayloadsDiffer(r: Rule, s: Rule, m: nat, i: nat) returns (before: Text, a: byte, b: byte, after: Text)
    requires DiffersAt(r, s, m, i)
    ensures a != b && RulePayload(r) == before + [a] + after && RulePayload(s) == before + [b] + after
  {
    var front, back := MemberInPayload(Members(r), m);
    var x, y := Members(r)[m], Members(s)[m];
    assert Members(r) == Members(r)[m := x];
    assert MembersPayload(Members(r)) == front + x + back && MembersPayload(Members(s)) == front + y + back;
    before, a, b, after := front + x[..i], x[i], y[i], x[i + 1..] + (back + [RECORD_SEPARATOR]);
    assert y == x[i := b];
    OneByteOf(front, x, i, back);
    OneByteOf(front, y, i, back);
    assert x[..i] == y[..i] && x[i + 1..] == y[i + 1..];
  }

  lemma OneByteOf(front: Text, x: Text, i: nat, back: Text)
    requires i < |x|
    ensures front + x + back + [RECORD_SEPARATOR] == front + x[..i] + [x[i]] + (x[i + 1..] + (back + [RECORD_SEPARATOR]))
  {
    assert x == x[..i] + [x[i]] + x[i + 1..];
  }

  /** Changing any one byte of any one member of any rule changes the seal. */
  lemma OneByteChangesTheSeal(rules: seq<Rule>, n: nat, s: Rule, m: nat, i: nat)
    requires n < |rules| && DiffersAt(rules[n], s, m, i)
    ensures Seal(rules[n := s]) != Seal(rules)
  {
    var front, back := RuleInPayload(rules, n);
    var before, a, b, after := RulePayloadsDiffer(rules[n], s, m, i);
    assert rules == rules[n := rules[n]];
    assert front + (before + [a] + after) + back == front + before + [a] + (after + back);
    assert front + (before + [b] + after) + back == front + before + [b] + (after + back);
    OneByteChangesTheHash(OFFSET_BASIS, front + before, a, b, after + back);
    SealsDiffer(Absorbed(OFFSET_BASIS, Payload(rules)), Absorbed(OFFSET_BASIS, Payload(rules[n := s])));
  }

  lemma SealsDiffer(g: Word, h: Word)
    requires g != h
    ensures "fnv1a64:" + Hex(g, 16) != "fnv1a64:" + Hex(h, 16)
  {
    HashFits(g);
    HashFits(h);
    var prefix := "fnv1a64:";
    assert (prefix + Hex(g, 16))[8..] == Hex(g, 16) && (prefix + Hex(h, 16))[8..] == Hex(h, 16);
    if Hex(g, 16) == Hex(h, 16) {
      HexIsInjective(g, h, 16);
    }
  }

  // ---- separators inside a member

  predicate HasNoUnitSeparator(r: Rule) {
    forall k | 0 <= k < 6 :: UNIT_SEPARATOR !in Members(r)[k]
  }

  lemma {:induction false} SplitAtSeparator(a: Text, b: Text, x: Text, y: Text)
    requires UNIT_SEPARATOR !in a && UNIT_SEPARATOR !in b
    requires a + [UNIT_SEPARATOR] + x == b + [UNIT_SEPARATOR] + y
    ensures a == b && x == y
    decreases |a|
  {
    FirstOf(a, x);
    FirstOf(b, y);
    if a != [] && b != [] {
      SplitAtSeparator(a[1..], b[1..], x, y);
    }
  }

  lemma FirstOf(a: Text, x: Text)
    ensures var s := a + [UNIT_SEPARATOR] + x;
            if a == [] then s[0] == UNIT_SEPARATOR && s[1..] == x
            else s[0] == a[0] && s[1..] == a[1..] + [UNIT_SEPARATOR] + x && a[0] in a
  {}

  lemma {:induction false} MembersComeApart(m: seq<Text>, n: seq<Text>, x: Text, y: Text)
    requires |m| == |n| && forall k | 0 <= k < |m| :: UNIT_SEPARATOR !in m[k] && UNIT_SEPARATOR !in n[k]
    requires MembersPayload(m) + x == MembersPayload(n) + y
    ensures m == n && x == y
    decreases |m|
  {
    if m == [] {
      assert MembersPayload(m) + x == x && MembersPayload(n) + y == y;
    } else {
      var restM, restN := MembersPayload(m[1..]), MembersPayload(n[1..]);
      assert MembersPayload(m) + x == m[0] + [UNIT_SEPARATOR] + (restM + x);
      assert MembersPayload(n) + y == n[0] + [UNIT_SEPARATOR] + (restN + y);
      SplitAtSeparator(m[0], n[0], restM + x, restN + y);
      MembersComeApart(m[1..], n[1..], x, y);
    }
  }

  lemma OnlyNoRulesAreEmpty(rules: seq<Rule>)
    ensures Payload(rules) == [] <==> rules == []
  {
    if rules != [] {
      assert |RulePayload(rules[0])| > 0;
    }
  }

  lemma RuleAhead(rules: seq<Rule>)
    requires rules != []
    ensures Payload(rules) == MembersPayload(Members(rules[0])) + ([RECORD_SEPARATOR] + Payload(rules[1..]))
  {}

  /** Without unit separators inside members, different rule sets seal different payloads. */
  lemma {:induction false} PayloadIsInjective(rules: seq<Rule>, others: seq<Rule>)
    requires forall r | r in rules :: HasNoUnitSeparator(r)
    requires forall r | r in others :: HasNoUnitSeparator(r)
    requires Payload(rules) == Payload(others)
    ensures rules == others
    decreases |rules|
  {
    OnlyNoRulesAreEmpty(rules);
    OnlyNoRulesAreEmpty(others);
    if rules != [] && others != [] {
      var r, s := rules[0], others[0];
      assert HasNoUnitSeparator(r) && HasNoUnitSeparator(s);
      var x, y := [RECORD_SEPARATOR] + Payload(rules[1..]), [RECORD_SEPARATOR] + Payload(others[1..]);
      RuleAhead(rules);
      RuleAhead(others);
      MembersComeApart(Members(r), Members(s), x, y);
      MembersDetermine(r, s);
      assert x[1..] == Payload(rules[1..]) && y[1..] == Payload(others[1..]);
      PayloadIsInjective(rules[1..], others[1..]);
    }
  }

  // ---- the corpora that are accepted

  const MAXIMUM_RULES: nat := 4096

  const MAXIMUM_STRING_LENGTH: nat := 8192

  const SUBJECT_KINDS := ["manifest", "module_root", "target_closure", "source_file",
                          "build_file", "declared_edge", "projection", "repository"]

  function Ascii(s: string): Text {
    seq(|s|, k requires 0 <= k < |s| => s[k] as int % 256)
  }

  predicate IsDigit(b: byte) {
    0x30 <= b <= 0x39
  }

  predicate AllDigits(s: Text) {
    forall k | 0 <= k < |s| :: IsDigit(s[k])
  }

  predicate IsRuleId(id: Text) {
    |id| == 6 && id[..2] == Ascii("RA") && 0x31 <= id[2] <= 0x37 && AllDigits(id[3..])
  }

  predicate IsAuthorityIdentifier(a: Text) {
    || (|a| == 8 && (a[..4] == Ascii("adr.") || a[..4] == Ascii("std.")) && AllDigits(a[4..]))
    || (|a| == 9 && a[..5] == Ascii("spec.") && AllDigits(a[5..]))
  }

  predicate IsLandsWith(v: Text) {
    v == Ascii("now") || (|v| == 9 && v[..5] == Ascii("TASK-") && AllDigits(v[5..]))
  }

  predicate IsSubjectKind(s: Text) {
    exists k :: 0 <= k < |SUBJECT_KINDS| && s == Ascii(SUBJECT_KINDS[k])
  }

  predicate IsRule(r: Rule) {
    && IsRuleId(r.id) && IsAuthorityIdentifier(r.authority) && |r.title| >= 20 && IsSubjectKind(r.subjectKind)
    && r.severity == Ascii("finding") && IsLandsWith(r.landsWith)
  }

  ghost predicate IsCorpus(rules: seq<Rule>) {
    && 0 < |rules| <= MAXIMUM_RULES
    && (forall k | 0 <= k < |rules| :: IsRule(rules[k]))
    && IdsAscend(rules, |rules|)
  }

  ghost predicate IdsAscend(rules: seq<Rule>, n: nat)
    requires n <= |rules|
  {
    forall j, k | 0 <= j < k < n :: LexLess(rules[j].id, rules[k].id)
  }

  lemma OneMoreAscends(rules: seq<Rule>, n: nat)
    requires n < |rules| && IdsAscend(rules, n) && (n > 0 ==> LexLess(rules[n - 1].id, rules[n].id))
    ensures IdsAscend(rules, n + 1)
  {
    forall i | 0 <= i < n ensures LexLess(rules[i].id, rules[n].id) {
      if i < n - 1 {
        LexTransitive(rules[i].id, rules[n - 1].id, rules[n].id);
      }
    }
  }

  /** Each identity is compared with the one before it alone. */
  method ReadRules(rules: seq<Rule>) returns (accepted: bool)
    ensures accepted <==> IsCorpus(rules)
  {
    if rules == [] || |rules| > MAXIMUM_RULES {
      return false;
    }
    for k := 0 to |rules|
      invariant forall i | 0 <= i < k :: IsRule(rules[i])
      invariant IdsAscend(rules, k)
    {
      if !IsRule(rules[k]) {
        return false;
      }
      if k > 0 && !LexLess(rules[k - 1].id, rules[k].id) {
        return false;
      }
      OneMoreAscends(rules, k);
    }
    return true;
  }

  lemma IdentitiesDiffer(rules: seq<Rule>, j: nat, k: nat)
    requires IsCorpus(rules) && j < k < |rules|
    ensures rules[j].id != rules[k].id
  {
    LexIrreflexive(rules[j].id);
  }

  /** Two rules written into one, the first one's end and the second one's beginning inside the title. */
  function Fused(r: Rule, s: Rule): Rule {
    Rule(r.id, r.authority,
         r.title + [UNIT_SEPARATOR] + r.subjectKind + [UNIT_SEPARATOR] + r.severity + [UNIT_SEPARATOR] + r.landsWith
         + [UNIT_SEPARATOR, RECORD_SEPARATOR] + s.id + [UNIT_SEPARATOR] + s.authority + [UNIT_SEPARATOR] + s.title,
         s.subjectKind, s.severity, s.landsWith)
  }

  lemma RulePayloadIs(r: Rule)
    ensures RulePayload(r) ==
            r.id + [UNIT_SEPARATOR] + r.authority + [UNIT_SEPARATOR] + r.title + [UNIT_SEPARATOR]
            + r.subjectKind + [UNIT_SEPARATOR] + r.severity + [UNIT_SEPARATOR] + r.landsWith + [UNIT_SEPARATOR, RECORD_SEPARATOR]
  {
    var m := Members(r);
    var m5, m4, m3 := m[5..], m[4..], m[3..];
    assert MembersPayload(m[6..]) == [];
    assert MembersPayload(m5) == r.landsWith + [UNIT_SEPARATOR];
    assert MembersPayload(m4) == r.severity + [UNIT_SEPARATOR] + MembersPayload(m5) by { assert m4[1..] == m5; }
    assert MembersPayload(m3) == r.subjectKind + [UNIT_SEPARATOR] + MembersPayload(m4) by { assert m3[1..] == m4; }
    assert MembersPayload(m[2..]) == r.title + [UNIT_SEPARATOR] + MembersPayload(m3) by { assert m[2..][1..] == m3; }
    assert MembersPayload(m[1..]) == r.authority + [UNIT_SEPARATOR] + MembersPayload(m[2..]) by { assert m[1..][1..] == m[2..]; }
    assert MembersPayload(m) == r.id + [UNIT_SEPARATOR] + MembersPayload(m[1..]);
  }

  lemma FusedPayload(r: Rule, s: Rule)
    ensures RulePayload(Fused(r, s)) == RulePayload(r) + RulePayload(s)
  {
    RulePayloadIs(r);
    RulePayloadIs(s);
    RulePayloadIs(Fused(r, s));
  }

  lemma FusedIsRule(r: Rule, s: Rule)
    requires IsRule(r) && IsRule(s)
    ensures IsRule(Fused(r, s))
  {
  }

  lemma {:induction false} PayloadConcat(left: seq<Rule>, right: seq<Rule>)
    ensures Payload(left + right) == Payload(left) + Payload(right)
  {
    if left == [] {
      assert left + right == right;
    } else {
      assert (left + right)[1..] == left[1..] + right;
      PayloadConcat(left[1..], right);
    }
  }

  lemma PayloadOfOne(r: Rule)
    ensures Payload([r]) == RulePayload(r)
  {
    assert [r][1..] == [];
  }

  /** Two adjacent rules of a list written into one. */
  function FusedAt(rules: seq<Rule>, k: nat): seq<Rule>
    requires k + 1 < |rules|
  {
    rules[..k] + [Fused(rules[k], rules[k + 1])] + rules[k + 2..]
  }

  lemma FusedPair(r: Rule, s: Rule)
    ensures Payload([Fused(r, s)]) == Payload([r, s])
  {
    PayloadConcat([r], [s]);
    PayloadOfOne(r);
    PayloadOfOne(s);
    PayloadOfOne(Fused(r, s));
    FusedPayload(r, s);
    assert [r] + [s] == [r, s];
  }

  lemma PayloadInside(front: seq<Rule>, middle: seq<Rule>, back: seq<Rule>)
    ensures Payload(front + middle + back) == Payload(front) + Payload(middle) + Payload(back)
  {
    PayloadConcat(front + middle, back);
    PayloadConcat(front, middle);
  }

  lemma FusedInside(front: seq<Rule>, r: Rule, s: Rule, back: seq<Rule>)
    ensures Payload(front + [Fused(r, s)] + back) == Payload(front + [r, s] + back)
  {
    PayloadInside(front, [Fused(r, s)], back);
    PayloadInside(front, [r, s], back);
    FusedPair(r, s);
  }

  lemma AroundTwo<T>(xs: seq<T>, k: nat)
    requires k + 1 < |xs|
    ensures xs == xs[..k] + [xs[k], xs[k + 1]] + xs[k + 2..]
  {
  }

  lemma FusedAtPayload(rules: seq<Rule>, k: nat)
    requires k + 1 < |rules|
    ensures Payload(FusedAt(rules, k)) == Payload(rules)
  {
    FusedInside(rules[..k], rules[k], rules[k + 1], rules[k + 2..]);
    AroundTwo(rules, k);
  }

  lemma FusedAtPlaces(rules: seq<Rule>, k: nat, i: nat)
    requires k + 1 < |rules| && i < |rules| - 1
    ensures |FusedAt(rules, k)| == |rules| - 1
    ensures FusedAt(rules, k)[i] ==
            if i < k then rules[i] else if i == k then Fused(rules[k], rules[k + 1]) else rules[i + 1]
  {
  }

  lemma FusedIsCorpus(rules: seq<Rule>, k: nat)
    requires IsCorpus(rules) && k + 1 < |rules|
    ensures IsCorpus(FusedAt(rules, k)) && FusedAt(rules, k) != rules
  {
    var fused := FusedAt(rules, k);
    FusedIsRule(rules[k], rules[k + 1]);
    FusedAtPlaces(rules, k, 0);
    forall i | 0 <= i < |fused| ensures IsRule(fused[i]) {
      FusedAtPlaces(rules, k, i);
    }
    forall i, j | 0 <= i < j < |fused| ensures LexLess(fused[i].id, fused[j].id) {
      FusedAtPlaces(rules, k, i);
      FusedAtPlaces(rules, k, j);
    }
  }

  /**
    Nothing keeps a separator out of a title, so dropping a rule by writing it into the title of
    the one before it, wherever the two stand, gives another accepted corpus with the same seal.
   */
  lemma FusedRulesKeepTheSeal(rules: seq<Rule>, k: nat)
    requires IsCorpus(rules) && k + 1 < |rules|
    ensures IsCorpus(FusedAt(rules, k)) && FusedAt(rules, k) != rules
    ensures Payload(FusedAt(rules, k)) == Payload(rules) && Seal(FusedAt(rules, k)) == Seal(rules)
  {
    FusedAtPayload(rules, k);
    FusedIsCorpus(rules, k);
  }

  // ---- one rule that hides another

  lemma NoneBehind(a: Text, x: Text)
    requires UNIT_SEPARATOR !in x
    ensures var s := a + [UNIT_SEPARATOR] + x;
      s[|a|] == UNIT_SEPARATOR && s[..|a|] == a && s[|a| + 1..] == x
      && forall j | |a| < j < |s| :: s[j] != UNIT_SEPARATOR
  {
    var s := a + [UNIT_SEPARATOR] + x;
    assert forall j | |a| < j < |s| :: s[j] == x[j - |a| - 1];
  }

  lemma LastSeparator(a: Text, x: Text, b: Text, y: Text)
    requires UNIT_SEPARATOR !in x && UNIT_SEPARATOR !in y
    requires a + [UNIT_SEPARATOR] + x == b + [UNIT_SEPARATOR] + y
    ensures a == b && x == y
  {
    NoneBehind(a, x);
    NoneBehind(b, y);
    var s := a + [UNIT_SEPARATOR] + x;
    assert s[|a|] == UNIT_SEPARATOR && s[|b|] == UNIT_SEPARATOR;
  }

  predicate IsPrintable(s: Text) {
    forall k | 0 <= k < |s| :: s[k] >= 0x20
  }

  /** Every member but the title has a form that leaves no room for a separator. */
  lemma FormsHaveNoSeparator(r: Rule)
    requires IsRule(r)
    ensures IsPrintable(r.id) && IsPrintable(r.authority) && IsPrintable(r.subjectKind)
    ensures IsPrintable(r.severity) && IsPrintable(r.landsWith)
  {
    IdIsPrintable(r.id);
    AuthorityIsPrintable(r.authority);
    LandsWithIsPrintable(r.landsWith);
    KindIsPrintable(r.subjectKind);
  }

  lemma KindIsPrintable(s: Text)
    requires IsSubjectKind(s)
    ensures IsPrintable(s)
  {
    var k :| 0 <= k < |SUBJECT_KINDS| && s == Ascii(SUBJECT_KINDS[k]);
    KindIsLowerCase(k);
    LowerCaseIsPrintable(SUBJECT_KINDS[k]);
  }

  lemma LowerCaseIsPrintable(text: string)
    requires IsLowerCase(text)
    ensures IsPrintable(Ascii(text))
  {
  }

  lemma KindIsLowerCase(k: nat)
    requires k < |SUBJECT_KINDS|
    ensures IsLowerCase(SUBJECT_KINDS[k])
  {
    if k < 4 {
      FirstKinds(k);
    } else {
      LastKinds(k);
    }
  }

  predicate IsLowerCase(text: string) {
    forall i | 0 <= i < |text| :: 0x5f <= text[i] as int < 0x80
  }

  lemma FirstKinds(k: nat)
    requires k < 4
    ensures IsLowerCase(SUBJECT_KINDS[k])
  {
    assert IsLowerCase("manifest") && IsLowerCase("module_root");
    assert IsLowerCase("target_closure") && IsLowerCase("source_file");
  }

  lemma LastKinds(k: nat)
    requires 4 <= k < 8
    ensures IsLowerCase(SUBJECT_KINDS[k])
  {
    assert IsLowerCase("build_file") && IsLowerCase("declared_edge");
    assert IsLowerCase("projection") && IsLowerCase("repository");
  }

  lemma IdIsPrintable(id: Text)
    requires IsRuleId(id)
    ensures IsPrintable(id)
  {
    assert id == id[..2] + [id[2]] + id[3..];
  }

  lemma AuthorityIsPrintable(a: Text)
    requires IsAuthorityIdentifier(a)
    ensures IsPrintable(a)
  {
    assert if |a| == 8 then a == a[..4] + a[4..] else a == a[..5] + a[5..];
  }

  lemma LandsWithIsPrintable(v: Text)
    requires IsLandsWith(v)
    ensures IsPrintable(v)
  {
    if |v| == 9 {
      assert v == v[..5] + v[5..];
    }
  }

  /** What follows the title, in two shapes. */
  lemma AroundTheTitle(r: Rule)
    ensures RulePayload(r) == r.id + [UNIT_SEPARATOR] + (r.authority + [UNIT_SEPARATOR] + RestOf(r))
    ensures RestOf(r) == r.title + [UNIT_SEPARATOR] + r.subjectKind + [UNIT_SEPARATOR] + r.severity
                         + [UNIT_SEPARATOR] + r.landsWith + [UNIT_SEPARATOR, RECORD_SEPARATOR]
  {
    RulePayloadIs(r);
  }

  function RestOf(r: Rule): Text {
    r.title + [UNIT_SEPARATOR] + r.subjectKind + [UNIT_SEPARATOR] + r.severity + [UNIT_SEPARATOR] + r.landsWith
    + [UNIT_SEPARATOR, RECORD_SEPARATOR]
  }

  lemma DropEnd(a: Text, b: Text)
    requires a + [UNIT_SEPARATOR, RECORD_SEPARATOR] == b + [UNIT_SEPARATOR, RECORD_SEPARATOR]
    ensures a == b
  {
    var l, r := a + [UNIT_SEPARATOR, RECORD_SEPARATOR], b + [UNIT_SEPARATOR, RECORD_SEPARATOR];
    assert a == l[..|l| - 2] && b == r[..|r| - 2];
  }

  /** A single accepted rule is determined by its payload, whatever its title holds. */
  lemma RuleIsDetermined(r: Rule, s: Rule)
    requires IsRule(r) && IsRule(s) && RulePayload(r) == RulePayload(s)
    ensures r == s
  {
    FormsHaveNoSeparator(r);
    FormsHaveNoSeparator(s);
    AroundTheTitle(r);
    AroundTheTitle(s);
    SplitAtSeparator(r.id, s.id, r.authority + [UNIT_SEPARATOR] + RestOf(r), s.authority + [UNIT_SEPARATOR] + RestOf(s));
    SplitAtSeparator(r.authority, s.authority, RestOf(r), RestOf(s));
    var rk, sk := r.title + [UNIT_SEPARATOR] + r.subjectKind, s.title + [UNIT_SEPARATOR] + s.subjectKind;
    DropEnd(rk + [UNIT_SEPARATOR] + r.severity + [UNIT_SEPARATOR] + r.landsWith,
            sk + [UNIT_SEPARATOR] + s.severity + [UNIT_SEPARATOR] + s.landsWith);
    LastSeparator(rk + [UNIT_SEPARATOR] + r.severity, r.landsWith, sk + [UNIT_SEPARATOR] + s.severity, s.landsWith);
    LastSeparator(rk, r.severity, sk, s.severity);
    LastSeparator(r.title, r.subjectKind, s.title, s.subjectKind);
  }

  /** All the rules of a list written into one. */
  function FusedAll(rules: seq<Rule>): Rule
    requires rules != []
  {
    if |rules| == 1 then rules[0] else Fused(rules[0], FusedAll(rules[1..]))
  }

  lemma {:induction false} FusedAllPayload(rules: seq<Rule>)
    requires rules != [] && forall k | 0 <= k < |rules| :: IsRule(rules[k])
    ensures IsRule(FusedAll(rules)) && FusedAll(rules).id == rules[0].id
    ensures RulePayload(FusedAll(rules)) == Payload(rules)
  {
    if |rules| == 1 {
      PayloadOfOne(rules[0]);
      assert rules == [rules[0]];
    } else {
      FusedAllPayload(rules[1..]);
      FusedIsRule(rules[0], FusedAll(rules[1..]));
      FusedPayload(rules[0], FusedAll(rules[1..]));
    }
  }

  lemma FusedAllOfOne(rules: seq<Rule>)
    requires rules != []
    ensures |rules| == 1 ==> rules == [FusedAll(rules)]
  {
  }

  /** What stands between two titles when a rule is written into the one before it. */
  function Seam(subjectKind: Text, landsWith: Text, id: Text, authority: Text): Text {
    [UNIT_SEPARATOR] + subjectKind + [UNIT_SEPARATOR] + Ascii("finding") + [UNIT_SEPARATOR] + landsWith
    + [UNIT_SEPARATOR, RECORD_SEPARATOR] + id + [UNIT_SEPARATOR] + authority + [UNIT_SEPARATOR]
  }

  ghost predicate SplitsAt(
    r: Rule, before: Text, subjectKind: Text, landsWith: Text, id: Text, authority: Text, after: Text)
  {
    && r.title == before + Seam(subjectKind, landsWith, id, authority) + after
    && |before| >= 20 && |after| >= 20
    && IsSubjectKind(subjectKind) && IsLandsWith(landsWith) && IsRuleId(id) && IsAuthorityIdentifier(authority)
    && LexLess(r.id, id)
  }

  /** The title holds the end of one rule and the beginning of a later one, with a usable title on either side. */
  ghost predicate HidesRule(r: Rule) {
    exists before, subjectKind, landsWith, id, authority, after ::
      SplitsAt(r, before, subjectKind, landsWith, id, authority, after)
  }

  lemma FusedTitle(r: Rule, s: Rule)
    requires r.severity == Ascii("finding")
    ensures Fused(r, s).title == r.title + Seam(r.subjectKind, r.landsWith, s.id, s.authority) + s.title
  {
  }

  lemma FusedHidesRule(r: Rule, s: Rule)
    requires IsRule(r) && IsRule(s) && LexLess(r.id, s.id)
    ensures HidesRule(Fused(r, s))
  {
    FusedTitle(r, s);
    assert SplitsAt(Fused(r, s), r.title, r.subjectKind, r.landsWith, s.id, s.authority, s.title);
  }

  /** A rule that hides another is the fusion of two accepted ones. */
  lemma HiddenRuleComesOut(r: Rule) returns (first: Rule, second: Rule)
    requires IsRule(r) && HidesRule(r)
    ensures IsCorpus([first, second]) && Fused(first, second) == r
  {
    var before, subjectKind, landsWith, id, authority, after :|
      SplitsAt(r, before, subjectKind, landsWith, id, authority, after);
    first := Rule(r.id, r.authority, before, subjectKind, Ascii("finding"), landsWith);
    second := Rule(id, authority, after, r.subjectKind, r.severity, r.landsWith);
    FusedTitle(first, second);
  }

  /** A rule set read from a file has bounded strings; only its titles can come near the bound. */
  predicate TitlesFit(rules: seq<Rule>) {
    forall k | 0 <= k < |rules| :: |rules[k].title| <= MAXIMUM_STRING_LENGTH
  }

  /** Two adjacent rules and what stands between their titles fit one string of a file. */
  predicate FitFused(rules: seq<Rule>, k: nat) {
    k + 1 < |rules| &&
    var r, s := rules[k], rules[k + 1];
    |r.title| + |Seam(r.subjectKind, r.landsWith, s.id, s.authority)| + |s.title| <= MAXIMUM_STRING_LENGTH
  }

  /** Two rules of a file can be written into one in a file exactly when both titles and the seam fit one string. */
  lemma FusedFitsAFile(rules: seq<Rule>, k: nat)
    requires IsCorpus(rules) && TitlesFit(rules) && k + 1 < |rules|
    ensures TitlesFit(FusedAt(rules, k)) <==> FitFused(rules, k)
  {
    FusedTitle(rules[k], rules[k + 1]);
    FusedAtPlaces(rules, k, k);
    forall i | 0 <= i < |rules| - 1 && i != k ensures |FusedAt(rules, k)[i].title| <= MAXIMUM_STRING_LENGTH {
      FusedAtPlaces(rules, k, i);
    }
  }

  /** Another accepted rule set with the payload of this one. */
  ghost predicate SharesPayload(rules: seq<Rule>, others: seq<Rule>) {
    IsCorpus(others) && others != rules && Payload(others) == Payload(rules)
  }

  lemma AnotherCorpus(rules: seq<Rule>) returns (others: seq<Rule>)
    requires IsCorpus(rules) && (|rules| >= 2 || HidesRule(rules[0]))
    ensures SharesPayload(rules, others)
  {
    if |rules| >= 2 {
      FusedRulesKeepTheSeal(rules, 0);
      others := FusedAt(rules, 0);
    } else {
      var first, second := HiddenRuleComesOut(rules[0]);
      FusedPair(first, second);
      others := [first, second];
      assert rules == [rules[0]];
    }
  }

  /** The corpus, if it shares its payload with another, has at least two rules or one that hides another. */
  lemma SharedPayloadHasASeam(rules: seq<Rule>, others: seq<Rule>)
    requires IsCorpus(rules) && SharesPayload(rules, others)
    ensures |rules| >= 2 || HidesRule(rules[0])
  {
    if |rules| == 1 {
      var r := rules[0];
      assert rules == [r];
      PayloadOfOne(r);
      FusedAllPayload(others);
      RuleIsDetermined(FusedAll(others), r);
      FusedAllOfOne(others);
      if |others| > 1 {
        FusedAllPayload(others[1..]);
        FusedHidesRule(others[0], FusedAll(others[1..]));
      }
    }
  }

  /**
    Exactly which accepted rule sets share their payload, and so their seal, with another accepted
    one: those of two rules or more, and those whose single title hides a later rule.
   */
  lemma PayloadIsSharedExactly(rules: seq<Rule>)
    requires IsCorpus(rules)
    ensures (exists others :: SharesPayload(rules, others)) <==> |rules| >= 2 || HidesRule(rules[0])
  {
    forall others | SharesPayload(rules, others) ensures |rules| >= 2 || HidesRule(rules[0]) {
      SharedPayloadHasASeam(rules, others);
    }
    if |rules| >= 2 || HidesRule(rules[0]) {
      var others := AnotherCorpus(rules);
      assert SharesPayload(rules, others);
    }
  }

  // ---- rule sets read from files

  predicate HasNoRecordSeparator(r: Rule) {
    RECORD_SEPARATOR !in r.title
  }

  lemma {:induction false} MembersHaveNoRecordSeparator(members: seq<Text>)
    requires forall k | 0 <= k < |members| :: RECORD_SEPARATOR !in members[k]
    ensures RECORD_SEPARATOR !in MembersPayload(members)
    decreases |members|
  {
    if members != [] {
      assert RECORD_SEPARATOR !in members[0];
      MembersHaveNoRecordSeparator(members[1..]);
    }
  }

  lemma RuleEndsOnce(r: Rule)
    requires IsRule(r) && HasNoRecordSeparator(r)
    ensures RECORD_SEPARATOR !in MembersPayload(Members(r))
  {
    FormsHaveNoSeparator(r);
    MembersHaveNoRecordSeparator(Members(r));
  }

  /** Where one text ends at a separator, the other text holds none before it. */
  lemma CutAfter(x: Text, p: Text, a: Text, b: Text)
    requires RECORD_SEPARATOR !in x && x + [RECORD_SEPARATOR] + p == a + [RECORD_SEPARATOR] + b
    ensures |a| >= |x|
    ensures |a| == |x| ==> a == x && b == p
    ensures |a| > |x| ==> a == x + [RECORD_SEPARATOR] + a[|x| + 1..] && p == a[|x| + 1..] + [RECORD_SEPARATOR] + b
  {
    var l, r := x + [RECORD_SEPARATOR] + p, a + [RECORD_SEPARATOR] + b;
    assert r[|a|] == RECORD_SEPARATOR;
    assert forall i | 0 <= i < |x| :: l[i] == x[i] && l[i] in x;
    assert l[..|x|] == x && l[|x|] == RECORD_SEPARATOR && l[|x| + 1..] == p;
    assert r[..|a|] == a && r[|a| + 1..] == b;
    if |a| > |x| {
      assert a == a[..|x|] + [a[|x|]] + a[|x| + 1..];
      assert a[..|x|] == r[..|x|] && a[|x|] == r[|x|];
      assert r[|x| + 1..] == a[|x| + 1..] + [RECORD_SEPARATOR] + b;
    }
  }

  /** Every record separator of such a payload ends a rule. */
  lemma {:induction false} SeparatorEndsARule(rules: seq<Rule>, a: Text, b: Text) returns (j: nat)
    requires forall k | 0 <= k < |rules| :: IsRule(rules[k]) && HasNoRecordSeparator(rules[k])
    requires Payload(rules) == a + [RECORD_SEPARATOR] + b
    ensures 1 <= j <= |rules| && Payload(rules[..j]) == a + [RECORD_SEPARATOR] && Payload(rules[j..]) == b
    decreases |rules|
  {
    OnlyNoRulesAreEmpty(rules);
    assert (a + [RECORD_SEPARATOR] + b)[|a|] == RECORD_SEPARATOR;
    var x, rest := MembersPayload(Members(rules[0])), rules[1..];
    RuleEndsOnce(rules[0]);
    CutAfter(x, Payload(rest), a, b);
    if |a| == |x| {
      j := 1;
      assert rules[..1] == [rules[0]];
      PayloadOfOne(rules[0]);
    } else {
      var i := SeparatorEndsARule(rest, a[|x| + 1..], b);
      j := i + 1;
      FrontOfPayload(rules, i);
    }
  }

  lemma FrontOfPayload(rules: seq<Rule>, i: nat)
    requires rules != [] && i <= |rules| - 1
    ensures Payload(rules[..i + 1]) == RulePayload(rules[0]) + Payload(rules[1..][..i])
    ensures rules[i + 1..] == rules[1..][i..]
  {
    assert rules[..i + 1][0] == rules[0] && rules[..i + 1][1..] == rules[1..][..i];
  }

  lemma {:induction false} FusedAllStarts(rules: seq<Rule>)
    requires rules != []
    ensures FusedAll(rules).id == rules[0].id && FusedAll(rules).authority == rules[0].authority
    ensures |FusedAll(rules).title| >= |rules[0].title|
  {
  }

  /** The first rule of the other set is a run of this one's, and a run that fits begins with a pair that does. */
  lemma FirstRun(rules: seq<Rule>, others: seq<Rule>) returns (j: nat)
    requires forall k | 0 <= k < |rules| :: IsRule(rules[k]) && HasNoRecordSeparator(rules[k])
    requires others != [] && IsRule(others[0]) && |others[0].title| <= MAXIMUM_STRING_LENGTH
    requires Payload(rules) == Payload(others)
    ensures 1 <= j <= |rules| && Payload(rules[j..]) == Payload(others[1..])
    ensures if j == 1 then others[0] == rules[0] else FitFused(rules, 0)
  {
    j := SeparatorEndsARule(rules, MembersPayload(Members(others[0])), Payload(others[1..]));
    var run := rules[..j];
    FusedAllPayload(run);
    RuleIsDetermined(FusedAll(run), others[0]);
    if j > 1 {
      FusedAllStarts(run[1..]);
      FusedTitle(run[0], FusedAll(run[1..]));
    }
  }

  lemma {:induction false} OtherReadingFuses(rules: seq<Rule>, others: seq<Rule>) returns (k: nat)
    requires forall i | 0 <= i < |rules| :: IsRule(rules[i]) && HasNoRecordSeparator(rules[i])
    requires forall i | 0 <= i < |others| :: IsRule(others[i])
    requires TitlesFit(others) && others != rules && Payload(others) == Payload(rules)
    ensures FitFused(rules, k)
    decreases |others|
  {
    OnlyNoRulesAreEmpty(rules);
    OnlyNoRulesAreEmpty(others);
    var j := FirstRun(rules, others);
    if j == 1 {
      assert rules == [rules[0]] + rules[1..] && others == [others[0]] + others[1..];
      var i := OtherReadingFuses(rules[1..], others[1..]);
      k := i + 1;
    } else {
      k := 0;
    }
  }

  /**
    Exactly which rule sets read from a file, their titles free of the record separator, share their
    payload with another one that a file can hold: those with two adjacent rules that fit one string.
   */
  lemma FilePayloadIsSharedExactly(rules: seq<Rule>)
    requires IsCorpus(rules) && TitlesFit(rules) && forall k | 0 <= k < |rules| :: HasNoRecordSeparator(rules[k])
    ensures (exists others :: SharesPayload(rules, others) && TitlesFit(others)) <==> exists k: nat :: FitFused(rules, k)
  {
    forall others | SharesPayload(rules, others) && TitlesFit(others) ensures exists k: nat :: FitFused(rules, k) {
      var k := OtherReadingFuses(rules, others);
    }
    if k: nat :| FitFused(rules, k) {
      FusedRulesKeepTheSeal(rules, k);
      FusedFitsAFile(rules, k);
      assert SharesPayload(rules, FusedAt(rules, k));
    }
  }
}
