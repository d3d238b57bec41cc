/**
  A reader of RFC 8259 text with the repository's own gates: integer tokens only, the safe integer
  range, valid UTF-8 strings, distinct decoded member names, and the depth, node, string and member
  limits.
 */
module CanonicalReader {
  import opened Options
  import opened Utf
  import opened Decimals
  import opened CanonicalValue

  const MAXIMUM_RECORD_BYTES := 1_048_576
  const MAXIMUM_RECORD_DEPTH := 32
  const MAXIMUM_RECORD_NODES := 65_536
  const MAXIMUM_RECORD_STRING_BYTES := 4_096
  const MAXIMUM_RECORD_MEMBERS := 4_096
  const SAFE_INTEGER_BOUND := 9_007_199_254_740_991

  datatype Rejection = MalformedInput | NoncanonicalBytes | LimitExceeded

  datatype Result<+T> = Ok(value: T) | Rejected(reason: Rejection)

  predicate IsSpace(c: char) {
    c == ' ' || c == '\t' || c == '\n' || c == '\r'
  }

  function SkipSpace(s: string): (rest: string)
    ensures |rest| <= |s|
    ensures rest != [] ==> !IsSpace(rest[0])
  {
    if s != [] && IsSpace(s[0]) then SkipSpace(s[1..]) else s
  }

  /** A scalar token runs to the next structural character, quote or whitespace. */
  predicate EndsToken(c: char) {
    IsSpace(c) || c == ',' || c == ':' || c == '{' || c == '}' || c == '[' || c == ']' || c == '"'
  }

  function Token(s: string): (token: string)
    ensures token <= s
    ensures s != [] && !EndsToken(s[0]) ==> |token| > 0
  {
    if s == [] || EndsToken(s[0]) then [] else [s[0]] + Token(s[1..])
  }

  lemma {:induction false} TokenStops(token: string, rest: string)
    requires forall i | 0 <= i < |token| :: !EndsToken(token[i])
    requires rest == [] || EndsToken(rest[0])
    ensures Token(token + rest) == token
  {
    if token == [] {
      assert token + rest == rest;
    } else {
      assert (token + rest)[1..] == token[1..] + rest;
      TokenStops(token[1..], rest);
      assert token == [token[0]] + token[1..];
    }
  }

  // ---- numbers

  /** A bare integer: no sign but minus, no leading zero, no fraction, no exponent, no `-0`. */
  predicate IsIntegerToken(token: string) {
    IsNumeral(token) || (|token| > 1 && token[0] == '-' && IsNumeral(token[1..]) && token[1] != '0')
  }

  function TokenValue(token: string): int
    requires IsIntegerToken(token)
  {
    if token[0] == '-' then 0 - NumeralValue(token[1..]) else NumeralValue(token)
  }

  /** The lexical gate on numeric tokens. */
  method CheckIntegerToken(token: string) returns (ok: bool)
    ensures ok <==> IsIntegerToken(token)
  {
    if token == [] {
      return false;
    }
    var index := 0;
    if token[0] == '-' {
      index := 1;
      if |token| == 1 {
        return false;
      }
    }
    if token[index] == '+' {
      return false;
    }
    var firstDigit := index;
    while index < |token|
      invariant firstDigit <= index <= |token|
      invariant forall i | firstDigit <= i < index :: IsDigit(token[i])
    {
      var c := token[index];
      if c == '.' || c == 'e' || c == 'E' || c < '0' || c > '9' {
        assert !IsIntegerToken(token) by {
          assert firstDigit == 1 ==> token[1..][index - 1] == c;
        }
        return false;
      }
      index := index + 1;
    }
    var digits := token[firstDigit..];
    assert AllDigits(digits);
    if |digits| > 1 && digits[0] == '0' {
      return false;
    }
    if firstDigit == 1 && digits == "0" {
      return false;
    }
    return true;
  }

  /** The gate accepts exactly the numerals `std::to_chars` writes. */
  lemma IntegerTokensAreCanonical(token: string)
    ensures IsIntegerToken(token) ==> IntegerText(TokenValue(token)) == token
  {
    if IsNumeral(token) {
      DecimalOfValue(token);
    } else if IsIntegerToken(token) {
      DecimalOfValue(token[1..]);
      assert token == "-" + token[1..];
    }
  }

  lemma IntegerTextIsToken(n: int)
    ensures IsIntegerToken(IntegerText(n)) && TokenValue(IntegerText(n)) == n
  {
    if n < 0 {
      ValueOfDecimal(-n);
      assert IntegerText(n)[1..] == Decimal(-n);
    } else {
      ValueOfDecimal(n);
    }
  }

  /** Conversion to a 64-bit integer, then the safe range. */
  function ReadNumber(token: string): Result<Value> {
    if !IsIntegerToken(token) then Rejected(MalformedInput) else
    var n := TokenValue(token);
    if n < -0x8000_0000_0000_0000 || n > 0x7FFF_FFFF_FFFF_FFFF then Rejected(MalformedInput)
    else if n > SAFE_INTEGER_BOUND || n < -SAFE_INTEGER_BOUND then Rejected(LimitExceeded)
    else Ok(Integer(n))
  }

  // ---- strings

  datatype Scanned = Scanned(text: string, rest: string)

  function HexValue(c: char): (r: Option<nat>)
    ensures r.Some? ==> r.value < 16
  {
    if '0' <= c <= '9' then Some(c as int - '0' as int)
    else if 'a' <= c <= 'f' then Some(c as int - 'a' as int + 10)
    else if 'A' <= c <= 'F' then Some(c as int - 'A' as int + 10)
    else None
  }

  /** The value of the four hexadecimal digits at the head. */
  function HexQuad(s: string): (r: Option<nat>)
    ensures r.Some? ==> |s| >= 4 && r.value < 0x1_0000
  {
    if |s| < 4 || HexValue(s[0]).None? || HexValue(s[1]).None? || HexValue(s[2]).None? || HexValue(s[3]).None? then None
    else Some(HexValue(s[0]).value * 4096 + HexValue(s[1]).value * 256 + HexValue(s[2]).value * 16 + HexValue(s[3]).value)
  }

  /** After `\u`: one unit of the basic plane, or a whole surrogate pair. */
  function ReadUnicode(s: string): (r: Option<Scanned>)
    ensures r.Some? ==> |r.value.rest| < |s|
  {
    if HexQuad(s).None? then None else
    var unit := HexQuad(s).value;
    if 0xD800 <= unit < 0xDC00 then
      if |s| >= 6 && s[4] == '\\' && s[5] == 'u' && HexQuad(s[6..]).Some? && 0xDC00 <= HexQuad(s[6..]).value < 0xE000 then
        var low := HexQuad(s[6..]).value;
        Some(Scanned(Encode(0x1_0000 + (unit - 0xD800) * 1024 + (low - 0xDC00)), s[10..]))
      else None
    else if 0xDC00 <= unit < 0xE000 then None
    else Some(Scanned(Encode(unit), s[4..]))
  }

  /** After a backslash. */
  function ReadEscape(s: string): (r: Option<Scanned>)
    ensures r.Some? ==> |r.value.rest| < |s|
  {
    if s == [] then None
    else if s[0] == '"' || s[0] == '\\' || s[0] == '/' then Some(Scanned([s[0]], s[1..]))
    else if s[0] == 'b' then Some(Scanned([0x08 as char], s[1..]))
    else if s[0] == 'f' then Some(Scanned([0x0C as char], s[1..]))
    else if s[0] == 'n' then Some(Scanned("\n", s[1..]))
    else if s[0] == 'r' then Some(Scanned("\r", s[1..]))
    else if s[0] == 't' then Some(Scanned("\t", s[1..]))
    else if s[0] == 'u' then ReadUnicode(s[1..])
    else None
  }

  /** After the opening quote: the decoded text, and what follows the closing quote. */
  function ReadChars(s: string): (r: Option<Scanned>)
    ensures r.Some? ==> |r.value.rest| < |s|
    decreases |s|
  {
    if s == [] || s[0] as int < 0x20 then None
    else if s[0] == '"' then Some(Scanned([], s[1..]))
    else
      var head := if s[0] == '\\' then ReadEscape(s[1..]) else Some(Scanned([s[0]], s[1..]));
      if head.None? then None else
      var tail := ReadChars(head.value.rest);
      if tail.None? then None else Some(Scanned(head.value.text + tail.value.text, tail.value.rest))
  }

  function ReadString(s: string): (r: Result<Scanned>)
    ensures r.Ok? ==> |r.value.rest| < |s| && IsUtf8(r.value.text) && |r.value.text| <= MAXIMUM_RECORD_STRING_BYTES
  {
    var scanned := ReadChars(s);
    if scanned.None? then Rejected(MalformedInput)
    else if |scanned.value.text| > MAXIMUM_RECORD_STRING_BYTES then Rejected(LimitExceeded)
    else if !IsUtf8(scanned.value.text) then Rejected(MalformedInput)
    else Ok(scanned.value)
  }

  // ---- values; `nodes` counts every value entered so far

  datatype Parsed = Parsed(value: Value, rest: string, nodes: nat)
  datatype ParsedElements = ParsedElements(elements: seq<Value>, rest: string, nodes: nat)
  datatype ParsedMembers = ParsedMembers(members: seq<Member>, rest: string, nodes: nat)

  function ParseValue(s: string, depth: nat, nodes: nat): (r: Result<Parsed>)
    ensures r.Ok? ==> |r.value.rest| < |s|
    decreases |s|, 0
  {
    if depth > MAXIMUM_RECORD_DEPTH then Rejected(LimitExceeded)
    else if nodes + 1 > MAXIMUM_RECORD_NODES then Rejected(LimitExceeded)
    else if s == [] then Rejected(MalformedInput)
    else if s[0] == '{' then ParseObject(s[1..], depth, nodes + 1)
    else if s[0] == '[' then ParseArray(s[1..], depth, nodes + 1)
    else if s[0] == '"' then
      var scanned := ReadString(s[1..]);
      if scanned.Rejected? then Rejected(scanned.reason)
      else Ok(Parsed(Text(scanned.value.text), scanned.value.rest, nodes + 1))
    else ParseToken(s, nodes + 1)
  }

  function ParseToken(s: string, nodes: nat): (r: Result<Parsed>)
    requires s != []
    ensures r.Ok? ==> |r.value.rest| < |s|
  {
    var token := Token(s);
    var rest := s[|token|..];
    if token == "null" then Ok(Parsed(Null, rest, nodes))
    else if token == "true" then Ok(Parsed(Boolean(true), rest, nodes))
    else if token == "false" then Ok(Parsed(Boolean(false), rest, nodes))
    else if token != [] then
      var number := ReadNumber(token);
      if number.Rejected? then Rejected(number.reason) else Ok(Parsed(number.value, rest, nodes))
    else Rejected(MalformedInput)
  }

  /** After `[`. */
  function ParseArray(s: string, depth: nat, nodes: nat): (r: Result<Parsed>)
    ensures r.Ok? ==> |r.value.rest| < |s|
    decreases |s|, 2
  {
    var t := SkipSpace(s);
    if t != [] && t[0] == ']' then Ok(Parsed(Array([]), t[1..], nodes)) else
    var list := ParseElements(t, depth + 1, nodes);
    if list.Rejected? then Rejected(list.reason)
    else Ok(Parsed(Array(list.value.elements), list.value.rest, list.value.nodes))
  }

  /** At an element; consumes through the closing bracket. */
  function ParseElements(s: string, depth: nat, nodes: nat): (r: Result<ParsedElements>)
    ensures r.Ok? ==> |r.value.rest| < |s|
    decreases |s|, 1
  {
    var head := ParseValue(SkipSpace(s), depth, nodes);
    if head.Rejected? then Rejected(head.reason) else
    var t := SkipSpace(head.value.rest);
    if t == [] then Rejected(MalformedInput)
    else if t[0] == ']' then Ok(ParsedElements([head.value.value], t[1..], head.value.nodes))
    else if t[0] != ',' then Rejected(MalformedInput)
    else
      var tail := ParseElements(t[1..], depth, head.value.nodes);
      if tail.Rejected? then tail
      else Ok(ParsedElements([head.value.value] + tail.value.elements, tail.value.rest, tail.value.nodes))
  }

  /** After `{`. */
  function ParseObject(s: string, depth: nat, nodes: nat): (r: Result<Parsed>)
    ensures r.Ok? ==> |r.value.rest| < |s|
    decreases |s|, 2
  {
    var t := SkipSpace(s);
    if t != [] && t[0] == '}' then Ok(Parsed(MakeObject([]), t[1..], nodes)) else
    var list := ParseMembers(t, depth + 1, nodes, []);
    if list.Rejected? then Rejected(list.reason)
    else Ok(Parsed(MakeObject(list.value.members), list.value.rest, list.value.nodes))
  }

  predicate HasKey(members: seq<Member>, key: string) {
    exists i :: 0 <= i < |members| && members[i].key == key
  }

  /** At a member, with the members before it; consumes through the closing brace. */
  function ParseMembers(s: string, depth: nat, nodes: nat, before: seq<Member>): (r: Result<ParsedMembers>)
    requires ValidKeys(before) && DistinctKeys(before)
    ensures r.Ok? ==> |r.value.rest| < |s| && ValidKeys(r.value.members) && DistinctKeys(r.value.members)
    decreases |s|, 1
  {
    var t := SkipSpace(s);
    if t == [] || t[0] != '"' then Rejected(MalformedInput) else
    var name := ReadString(t[1..]);
    if name.Rejected? then Rejected(name.reason)
    else if HasKey(before, name.value.text) then Rejected(MalformedInput)
    else if |before| >= MAXIMUM_RECORD_MEMBERS then Rejected(LimitExceeded) else
    var u := SkipSpace(name.value.rest);
    if u == [] || u[0] != ':' then Rejected(MalformedInput) else
    var head := ParseValue(SkipSpace(u[1..]), depth, nodes);
    if head.Rejected? then Rejected(head.reason) else
    var members := before + [Member(name.value.text, head.value.value)];
    var w := SkipSpace(head.value.rest);
    if w == [] then Rejected(MalformedInput)
    else if w[0] == '}' then Ok(ParsedMembers(members, w[1..], head.value.nodes))
    else if w[0] != ',' then Rejected(MalformedInput)
    else ParseMembers(w[1..], depth, head.value.nodes, members)
  }

  /** A whole record: one object, beginning and ending the bytes. */
  function ParseRecord(bytes: string): Result<Value> {
    if |bytes| > MAXIMUM_RECORD_BYTES then Rejected(LimitExceeded)
    else if [0xEF as char, 0xBB as char, 0xBF as char] <= bytes then Rejected(MalformedInput)
    else if bytes == [] || bytes[0] != '{' || bytes[|bytes| - 1] != '}' then Rejected(MalformedInput)
    else
      var parsed := ParseValue(bytes, 1, 0);
      if parsed.Rejected? then Rejected(parsed.reason)
      else if parsed.value.rest != [] then Rejected(MalformedInput)
      else Ok(parsed.value.value)
  }
}
