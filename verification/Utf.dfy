/**
  UTF-8 decoding (RFC 3629 sections 3 and 4) and the UTF-16 code units of a key (RFC 8785
  section 3.2.3). A byte string is a `string` of characters below U+0100; any other character is
  no byte, and the decoder refuses it like every other malformed lead.
 */
module Utf {
  import opened Options

  // One decoded code point and the number of bytes it took.
  datatype Decoded = Decoded(codePoint: int, width: nat)

  predicate IsScalar(cp: int) {
    0 <= cp < 0xD800 || 0xE000 <= cp < 0x11_0000
  }

  predicate IsContinuation(c: char) {
    0x80 <= c as int < 0xC0
  }

  /** How many continuation bytes a lead byte announces. */
  function Extra(lead: int): Option<nat> {
    if 0 <= lead < 0x80 then Some(0)
    else if 0xC0 <= lead < 0xE0 then Some(1)
    else if 0xE0 <= lead < 0xF0 then Some(2)
    else if 0xF0 <= lead < 0xF8 then Some(3)
    else None
  }

  /** The payload bits of a lead byte. */
  function LeadBits(lead: int): int
    requires Extra(lead).Some?
  {
    if lead < 0x80 then lead else if lead < 0xE0 then lead - 0xC0 else if lead < 0xF0 then lead - 0xE0 else lead - 0xF0
  }

  /** The payload of a lead followed by `count` continuation bytes. */
  function Payload(text: string, count: nat): int
    requires count < |text| && Extra(text[0] as int).Some?
  {
    if count == 0 then LeadBits(text[0] as int)
    else Payload(text, count - 1) * 64 + (text[count] as int - 0x80)
  }

  /** Neither overlong, nor a surrogate, nor beyond the last code point. */
  predicate IsShortest(extra: nat, value: int) {
    && (extra == 1 ==> value >= 0x80)
    && (extra == 2 ==> value >= 0x800)
    && (extra == 3 ==> value >= 0x1_0000)
    && IsScalar(value)
  }

  /** The code point at the head of a byte string. */
  function Decode(text: string): (r: Option<Decoded>)
    ensures r.Some? ==> 0 < r.value.width <= |text| && IsScalar(r.value.codePoint)
  {
    if text == [] || Extra(text[0] as int).None? then None else
    var extra := Extra(text[0] as int).value;
    if extra >= |text| || exists i :: 1 <= i <= extra && !IsContinuation(text[i]) then None else
    var value := Payload(text, extra);
    if !IsShortest(extra, value) then None else Some(Decoded(value, extra + 1))
  }

  /** The decoder itself: one lead byte, then a loop over the announced continuation bytes. */
  method DecodeCodePoint(text: string, offset: nat) returns (ok: bool, next: nat, codePoint: int)
    requires offset <= |text|
    ensures ok == Decode(text[offset..]).Some?
    ensures ok ==> next == offset + Decode(text[offset..]).value.width <= |text|
    ensures ok ==> codePoint == Decode(text[offset..]).value.codePoint
    ensures !ok ==> next == offset
  {
    next, codePoint := offset, 0;
    if offset >= |text| {
      return false, offset, 0;
    }
    ghost var rest := text[offset..];
    var lead := text[offset] as int;
    var extra: nat;
    var value: int;
    if lead < 0x80 {
      assert Payload(rest, 0) == lead;
      return true, offset + 1, lead;
    }
    if 0xC0 <= lead < 0xE0 {
      extra, value := 1, lead - 0xC0;
    } else if 0xE0 <= lead < 0xF0 {
      extra, value := 2, lead - 0xE0;
    } else if 0xF0 <= lead < 0xF8 {
      extra, value := 3, lead - 0xF0;
    } else {
      return false, offset, 0;
    }
    if offset + extra >= |text| {
      return false, offset, 0;
    }
    var index: nat := 1;
    while index <= extra
      invariant 1 <= index <= extra + 1
      invariant forall i | 1 <= i < index :: IsContinuation(rest[i])
      invariant value == Payload(rest, index - 1)
    {
      var c := text[offset + index];
      assert rest[index] == c;
      if !(0x80 <= c as int < 0xC0) {
        return false, offset, 0;
      }
      value := value * 64 + (c as int - 0x80);
      index := index + 1;
    }
    if (extra == 1 && value < 0x80) || (extra == 2 && value < 0x800) || (extra == 3 && value < 0x1_0000) {
      return false, offset, 0;
    }
    if value > 0x10_FFFF || 0xD800 <= value <= 0xDFFF {
      return false, offset, 0;
    }
    return true, offset + extra + 1, value;
  }

  /** The shortest UTF-8 encoding of a scalar value (RFC 3629 section 3). */
  function Encode(cp: int): (bytes: string)
    requires IsScalar(cp)
    ensures |bytes| > 0
  {
    if cp < 0x80 then [cp as char]
    else if cp < 0x800 then [(0xC0 + cp / 64) as char, (0x80 + cp % 64) as char]
    else if cp < 0x1_0000 then
      [(0xE0 + cp / 4096) as char, (0x80 + cp / 64 % 64) as char, (0x80 + cp % 64) as char]
    else
      [(0xF0 + cp / 262144) as char, (0x80 + cp / 4096 % 64) as char, (0x80 + cp / 64 % 64) as char,
       (0x80 + cp % 64) as char]
  }

  /** The payload of each sequence length, written out. */
  lemma PayloadByLength(text: string, extra: nat)
    requires 0 < extra < |text| && extra <= 3 && Extra(text[0] as int).Some?
    ensures extra == 1 ==> Payload(text, extra) == LeadBits(text[0] as int) * 64 + (text[1] as int - 0x80)
    ensures extra == 2 ==> Payload(text, extra) ==
                           LeadBits(text[0] as int) * 4096 + (text[1] as int - 0x80) * 64 + (text[2] as int - 0x80)
    ensures extra == 3 ==> Payload(text, extra) ==
                           LeadBits(text[0] as int) * 262144 + (text[1] as int - 0x80) * 4096
                           + (text[2] as int - 0x80) * 64 + (text[3] as int - 0x80)
  {
    assert Payload(text, 1) == Payload(text, 0) * 64 + (text[1] as int - 0x80);
    if extra >= 2 {
      assert Payload(text, 2) == Payload(text, 1) * 64 + (text[2] as int - 0x80);
    }
    if extra >= 3 {
      assert Payload(text, 3) == Payload(text, 2) * 64 + (text[3] as int - 0x80);
    }
  }

  /** The base-64 digits of a scalar put it back together. */
  lemma Digits(cp: int)
    requires 0 <= cp
    ensures cp == cp / 64 * 64 + cp % 64
    ensures cp == cp / 4096 * 4096 + cp / 64 % 64 * 64 + cp % 64
    ensures cp == cp / 262144 * 262144 + cp / 4096 % 64 * 4096 + cp / 64 % 64 * 64 + cp % 64
  {
    var a := cp / 64;
    var b := a / 64;
    assert b == cp / 4096;
    assert b / 64 == cp / 262144;
  }

  lemma EncodedBytes(cp: int)
    requires IsScalar(cp)
    ensures var bytes := Encode(cp);
      && Extra(bytes[0] as int) == Some(|bytes| - 1)
      && (forall i | 1 <= i < |bytes| :: IsContinuation(bytes[i]))
      && |bytes| <= 4 && Payload(bytes, |bytes| - 1) == cp && IsShortest(|bytes| - 1, cp)
  {
    Digits(cp);
    if cp >= 0x80 {
      PayloadByLength(Encode(cp), |Encode(cp)| - 1);
    }
  }

  lemma {:induction false} PayloadOfPrefix(text: string, rest: string, count: nat)
    requires count < |text| && Extra(text[0] as int).Some?
    ensures Payload(text + rest, count) == Payload(text, count)
  {
    if count > 0 {
      PayloadOfPrefix(text, rest, count - 1);
    }
  }

  /** Decoding an encoding gives the scalar back, whatever follows it. */
  lemma DecodeEncode(cp: int, rest: string)
    requires IsScalar(cp)
    ensures Decode(Encode(cp) + rest) == Some(Decoded(cp, |Encode(cp)|))
  {
    var bytes := Encode(cp);
    EncodedBytes(cp);
    PayloadOfPrefix(bytes, rest, |bytes| - 1);
    assert forall i | 0 <= i < |bytes| :: (bytes + rest)[i] == bytes[i];
  }

  lemma EncodeTwo(a: int, b: int)
    requires 2 <= a < 32 && 0 <= b < 64
    ensures var cp := a * 64 + b; Encode(cp) == [(0xC0 + a) as char, (0x80 + b) as char]
  {
  }

  lemma EncodeThree(a: int, b: int, c: int)
    requires 0 <= a < 16 && 0 <= b < 64 && 0 <= c < 64
    requires a * 4096 + b * 64 + c >= 0x800 && IsScalar(a * 4096 + b * 64 + c)
    ensures var cp := a * 4096 + b * 64 + c;
            Encode(cp) == [(0xE0 + a) as char, (0x80 + b) as char, (0x80 + c) as char]
  {
    var cp := a * 4096 + b * 64 + c;
    assert cp / 64 == a * 64 + b;
    assert cp / 4096 == a;
  }

  lemma EncodeFour(a: int, b: int, c: int, d: int)
    requires 0 <= a < 8 && 0 <= b < 64 && 0 <= c < 64 && 0 <= d < 64
    requires a * 262144 + b * 4096 + c * 64 + d >= 0x1_0000 && IsScalar(a * 262144 + b * 4096 + c * 64 + d)
    ensures var cp := a * 262144 + b * 4096 + c * 64 + d;
            Encode(cp) == [(0xF0 + a) as char, (0x80 + b) as char, (0x80 + c) as char, (0x80 + d) as char]
  {
    var cp := a * 262144 + b * 4096 + c * 64 + d;
    assert cp / 64 == a * 4096 + b * 64 + c;
    assert cp / 4096 == a * 64 + b;
    assert cp / 262144 == a;
  }

  lemma EncodeDecodeShort(text: string)
    requires Decode(text).Some? && Extra(text[0] as int).value <= 1
    ensures var d := Decode(text).value; text[..d.width] == Encode(d.codePoint)
  {
    var lead := text[0] as int;
    if Extra(lead).value == 0 {
      assert Payload(text, 0) == lead;
    } else {
      assert IsContinuation(text[1]);
      PayloadByLength(text, 1);
      EncodeTwo(lead - 0xC0, text[1] as int - 0x80);
    }
  }

  lemma EncodeDecodeLong(text: string)
    requires Decode(text).Some? && Extra(text[0] as int).value >= 2
    ensures var d := Decode(text).value; text[..d.width] == Encode(d.codePoint)
  {
    var lead := text[0] as int;
    var extra := Extra(lead).value;
    assert IsContinuation(text[1]) && IsContinuation(text[2]);
    PayloadByLength(text, extra);
    if extra == 2 {
      EncodeThree(lead - 0xE0, text[1] as int - 0x80, text[2] as int - 0x80);
    } else {
      assert IsContinuation(text[3]);
      EncodeFour(lead - 0xF0, text[1] as int - 0x80, text[2] as int - 0x80, text[3] as int - 0x80);
    }
  }

  /** Only the shortest encoding of a scalar decodes: the accepted bytes are its encoding. */
  lemma EncodeDecode(text: string)
    requires Decode(text).Some?
    ensures var d := Decode(text).value; text[..d.width] == Encode(d.codePoint)
  {
    if Extra(text[0] as int).value <= 1 {
      EncodeDecodeShort(text);
    } else {
      EncodeDecodeLong(text);
    }
  }

  /** Every byte of the text belongs to a well-formed sequence. */
  predicate IsUtf8(text: string)
    decreases |text|
  {
    text == [] || (Decode(text).Some? && IsUtf8(text[Decode(text).value.width..]))
  }

  /** The scan that refuses a string or member name holding a malformed sequence. */
  method CheckUtf8(text: string) returns (ok: bool)
    ensures ok <==> IsUtf8(text)
  {
    var offset: nat := 0;
    while offset < |text|
      invariant offset <= |text|
      invariant IsUtf8(text) <==> IsUtf8(text[offset..])
      decreases |text| - offset
    {
      var valid, next, _ := DecodeCodePoint(text, offset);
      if !valid {
        return false;
      }
      assert text[offset..][next - offset..] == text[next..];
      offset := next;
    }
    return true;
  }

  /** The UTF-16 code units of one scalar: itself, or a surrogate pair. */
  function UnitsOf(cp: int): (units: seq<int>)
    requires IsScalar(cp)
    ensures 1 <= |units| <= 2
  {
    if cp < 0x1_0000 then [cp]
    else [0xD800 + (cp - 0x1_0000) / 1024, 0xDC00 + (cp - 0x1_0000) % 1024]
  }

  /** The UTF-16 encoding of a valid UTF-8 text. */
  function Utf16(text: string): seq<int>
    requires IsUtf8(text)
    decreases |text|
  {
    if text == [] then []
    else UnitsOf(Decode(text).value.codePoint) + Utf16(text[Decode(text).value.width..])
  }

  lemma FrontThenRest(left: string, n: nat, front: string, right: string)
    requires n <= |left| && left[..n] == front
    ensures left + right == front + (left[n..] + right)
    ensures (left + right)[n..] == left[n..] + right
  {}

  lemma EncodingIsUtf8(cp: int)
    requires IsScalar(cp)
    ensures IsUtf8(Encode(cp))
  {
    DecodeEncode(cp, []);
    assert Encode(cp) + [] == Encode(cp);
  }

  /** Two scalars whose units begin the same unit string are one scalar. */
  lemma UnitsArePrefixFree(a: int, b: int, restA: seq<int>, restB: seq<int>)
    requires IsScalar(a) && IsScalar(b)
    requires UnitsOf(a) + restA == UnitsOf(b) + restB
    ensures a == b && restA == restB
  {
    var all := UnitsOf(a) + restA;
    assert all[0] == UnitsOf(a)[0] && all[0] == UnitsOf(b)[0];
    assert |UnitsOf(a)| == |UnitsOf(b)|;
    if |UnitsOf(a)| == 2 {
      assert all[1] == UnitsOf(a)[1] && all[1] == UnitsOf(b)[1];
    }
    assert all[|UnitsOf(a)|..] == restA && all[|UnitsOf(b)|..] == restB;
  }

  lemma SameHalves(left: string, m: nat, right: string, n: nat)
    requires m <= |left| && n <= |right| && left[..m] == right[..n] && left[m..] == right[n..]
    ensures left == right
  {
    assert left == left[..m] + left[m..] && right == right[..n] + right[n..];
  }

  /** A valid text is determined by its UTF-16 encoding. */
  lemma {:induction false} Utf16IsInjective(left: string, right: string)
    requires IsUtf8(left) && IsUtf8(right) && Utf16(left) == Utf16(right)
    ensures left == right
    decreases |left|
  {
    if left == [] || right == [] {
    } else {
      var l, r := Decode(left).value, Decode(right).value;
      UnitsArePrefixFree(l.codePoint, r.codePoint, Utf16(left[l.width..]), Utf16(right[r.width..]));
      Utf16IsInjective(left[l.width..], right[r.width..]);
      EncodeDecode(left);
      EncodeDecode(right);
      SameHalves(left, l.width, right, r.width);
    }
  }
}
