/** Decoding a DSSE payload: standard base64 with padding (RFC 4648 section 4). */
module Base64 {
  import opened Options

  type byte = b: int | 0 <= b < 256

  type sextet = b: int | 0 <= b < 64

  const MAXIMUM_BUNDLE_BYTES: nat := 262_144

  datatype Result = Ok(bytes: seq<byte>) | BundleMalformed

  // ---- the alphabet

  function Symbol(v: sextet): char {
    if v < 26 then ('A' as int + v) as char
    else if v < 52 then ('a' as int + (v - 26)) as char
    else if v < 62 then ('0' as int + (v - 52)) as char
    else if v == 62 then '+'
    else '/'
  }

  /** A character's place in the alphabet, or -1. */
  function ValueOf(c: char): (v: int)
    ensures -1 <= v < 64
    ensures v >= 0 ==> Symbol(v) == c
  {
    if 'A' <= c <= 'Z' then c as int - 'A' as int
    else if 'a' <= c <= 'z' then c as int - 'a' as int + 26
    else if '0' <= c <= '9' then c as int - '0' as int + 52
    else if c == '+' then 62
    else if c == '/' then 63
    else -1
  }

  lemma SymbolsHaveValues(v: sextet)
    ensures ValueOf(Symbol(v)) == v && Symbol(v) != '='
  {}

  // ---- one quantum

  /** Padding is the last one or two characters of the last quantum, and nothing else. */
  predicate IsQuantum(q: string, last: bool)
    requires |q| == 4
  {
    StartsQuantum(q, last, 4)
  }

  /** So far, over the first `n` characters. */
  predicate StartsQuantum(q: string, last: bool, n: nat)
    requires |q| == 4
  {
    && (n > 0 ==> ValueOf(q[0]) >= 0)
    && (n > 1 ==> ValueOf(q[1]) >= 0)
    && (n > 2 ==> if q[2] == '=' then last else ValueOf(q[2]) >= 0)
    && (n > 3 ==> if q[3] == '=' then last else q[2] != '=' && ValueOf(q[3]) >= 0)
  }

  /** Padding stands for zero bits. */
  function Bits(c: char): sextet {
    var v := ValueOf(c);
    if v < 0 then 0 else v
  }

  /** Four sextets are three bytes; each padding character takes a byte away. */
  function Assembled(quantum: seq<sextet>, padding: nat): (bytes: seq<byte>)
    requires |quantum| == 4
    ensures |bytes| == if padding == 0 then 3 else if padding == 1 then 2 else 1
  {
    var a: int, b: int, c: int, d: int := quantum[0], quantum[1], quantum[2], quantum[3];
    var first, second, third := a * 4 + b / 16, b % 16 * 16 + c / 4, c % 4 * 64 + d;
    [first] + (if padding < 2 then [second] else []) + (if padding < 1 then [third] else [])
  }

  function QuantumBytes(q: string): seq<byte>
    requires |q| == 4
  {
    Assembled([Bits(q[0]), Bits(q[1]), Bits(q[2]), Bits(q[3])], Padding(q))
  }

  /** One quantum's bytes, when it is one. */
  function ReadBytes(q: string, last: bool): Option<seq<byte>>
    requires |q| == 4
  {
    if IsQuantum(q, last) then Some(QuantumBytes(q)) else None
  }

  function Join(first: Option<seq<byte>>, rest: Option<seq<byte>>): Option<seq<byte>> {
    if first.Some? && rest.Some? then Some(first.value + rest.value) else None
  }

  /** All the quanta's bytes, when each is one. */
  function Payload(encoded: string): Option<seq<byte>>
    requires |encoded| % 4 == 0
  {
    if encoded == "" then Some([]) else Join(ReadBytes(encoded[..4], |encoded| == 4), Payload(encoded[4..]))
  }

  function Decode(encoded: string): Result {
    if encoded == "" || |encoded| % 4 != 0 || |encoded| > MAXIMUM_BUNDLE_BYTES then BundleMalformed
    else
      match Payload(encoded)
      case None => BundleMalformed
      case Some(bytes) => Ok(bytes)
  }

  function Padding(q: string): nat
    requires |q| == 4
  {
    (if q[2] == '=' then 1 else 0) + (if q[3] == '=' then 1 else 0)
  }

  // ---- the decoder

  /** One quantum's sextets, or nothing. */
  method ReadQuantum(q: string, last: bool) returns (valid: bool, quantum: seq<sextet>, padding: nat)
    requires |q| == 4
    ensures valid <==> IsQuantum(q, last)
    ensures valid ==> quantum == [Bits(q[0]), Bits(q[1]), Bits(q[2]), Bits(q[3])] && padding == Padding(q)
  {
    valid, quantum, padding := true, [], 0;
    for index := 0 to 4
      invariant valid && |quantum| == index && StartsQuantum(q, last, index)
      invariant forall k | 0 <= k < index :: quantum[k] == Bits(q[k])
      invariant padding == (if index > 2 && q[2] == '=' then 1 else 0) + (if index > 3 && q[3] == '=' then 1 else 0)
    {
      var character := q[index];
      if character == '=' {
        if !last || index < 2 {
          valid := false;
          return;
        }
        padding := padding + 1;
        quantum := quantum + [0];
        continue;
      }
      if padding != 0 {
        valid := false;
        return;
      }
      var value := ValueOf(character);
      if value < 0 {
        valid := false;
        return;
      }
      quantum := quantum + [value];
    }
  }

  /** The payload of what is left. */
  function PayloadFrom(encoded: string, offset: nat): Option<seq<byte>>
    requires offset <= |encoded| && |encoded| % 4 == 0 && offset % 4 == 0
  {
    Payload(encoded[offset..])
  }

  lemma PayloadFromNext(decoded: seq<byte>, encoded: string, offset: nat)
    requires offset + 4 <= |encoded| && |encoded| % 4 == 0 && offset % 4 == 0
    ensures var bytes := ReadBytes(encoded[offset..offset + 4], offset + 4 == |encoded|);
            Join(Some(decoded), PayloadFrom(encoded, offset))
            == if bytes.None? then None else Join(Some(decoded + bytes.value), PayloadFrom(encoded, offset + 4))
  {
    assert encoded[offset..][..4] == encoded[offset..offset + 4] && encoded[offset..][4..] == encoded[offset + 4..];
    var bytes, rest := ReadBytes(encoded[offset..offset + 4], offset + 4 == |encoded|), PayloadFrom(encoded, offset + 4);
    if bytes.Some? && rest.Some? {
      assert decoded + (bytes.value + rest.value) == decoded + bytes.value + rest.value;
    }
  }

  method DecodeBase64(encoded: string) returns (result: Result)
    ensures result == Decode(encoded)
  {
    if encoded == "" || |encoded| % 4 != 0 {
      return BundleMalformed;
    }
    if |encoded| > MAXIMUM_BUNDLE_BYTES {
      return BundleMalformed;
    }
    var decoded: seq<byte> := [];
    var offset := 0;
    assert encoded[0..] == encoded;
    while offset < |encoded|
      invariant 0 <= offset <= |encoded| && offset % 4 == 0
      invariant Join(Some(decoded), PayloadFrom(encoded, offset)) == Join(Some([]), PayloadFrom(encoded, 0))
    {
      PayloadFromNext(decoded, encoded, offset);
      var valid, quantum, padding := ReadQuantum(encoded[offset..offset + 4], offset + 4 == |encoded|);
      if !valid {
        return BundleMalformed;
      }
      var bytes := AssembleQuantum(quantum, padding);
      assert ReadBytes(encoded[offset..offset + 4], offset + 4 == |encoded|) == Some(bytes);
      decoded := decoded + bytes;
      offset := offset + 4;
    }
    NothingLeft(decoded, encoded);
    return Ok(decoded);
  }

  lemma NothingLeft(decoded: seq<byte>, encoded: string)
    requires |encoded| % 4 == 0
    requires Join(Some(decoded), PayloadFrom(encoded, |encoded|)) == Join(Some([]), PayloadFrom(encoded, 0))
    ensures Payload(encoded) == Some(decoded)
  {
    assert encoded[|encoded|..] == "" && encoded[0..] == encoded && decoded + [] == decoded;
    var all := Payload(encoded);
    assert all.Some? ==> [] + all.value == all.value;
  }

  lemma TripleBytes(a: sextet, b: sextet, c: sextet, d: sextet)
    ensures var triple := a as int * 0x40000 + b as int * 0x1000 + c as int * 0x40 + d as int;
            && triple / 0x10000 % 0x100 == a as int * 4 + b as int / 16
            && triple / 0x100 % 0x100 == b as int % 16 * 16 + c as int / 4
            && triple % 0x100 == c as int % 4 * 64 + d as int
  {
    var b1, b0, c1, c0 := b as int / 16, b as int % 16, c as int / 4, c as int % 4;
    assert b as int == b1 * 16 + b0 && c as int == c1 * 4 + c0;
    ThreeDigits(a as int * 4 + b1, b0 * 16 + c1, c0 * 64 + d as int);
  }

  lemma ThreeDigits(x: byte, y: byte, z: byte)
    ensures var n := x as int * 0x10000 + y as int * 0x100 + z as int;
            n / 0x10000 % 0x100 == x && n / 0x100 % 0x100 == y && n % 0x100 == z
  {
    var n := x as int * 0x10000 + y as int * 0x100 + z as int;
    assert n / 0x100 == x as int * 0x100 + y as int;
    assert n / 0x10000 == x;
  }

  /** The three bytes of a triple, less one for each padding character. */
  method AssembleQuantum(quantum: seq<sextet>, padding: nat) returns (bytes: seq<byte>)
    requires |quantum| == 4
    ensures bytes == Assembled(quantum, padding)
  {
    var a: int, b: int, c: int, d: int := quantum[0], quantum[1], quantum[2], quantum[3];
    var triple := a * 0x40000 + b * 0x1000 + c * 0x40 + d;
    TripleBytes(a, b, c, d);
    bytes := [triple / 0x10000 % 0x100];
    if padding < 2 {
      bytes := bytes + [triple / 0x100 % 0x100];
    }
    if padding < 1 {
      bytes := bytes + [triple % 0x100];
    }
  }

  // ---- encoding, and what decoding gives back

  function EncodedQuantum(x: seq<byte>): (q: string)
    requires 1 <= |x| <= 3
    ensures |q| == 4
  {
    var x0: int, x1: int, x2: int := x[0], if |x| > 1 then x[1] else 0, if |x| > 2 then x[2] else 0;
    [Symbol(x0 / 4), Symbol(x0 % 4 * 16 + x1 / 16)]
    + (if |x| > 1 then [Symbol(x1 % 16 * 4 + x2 / 64)] else ['='])
    + (if |x| > 2 then [Symbol(x2 % 64)] else ['='])
  }

  /** RFC 4648 section 4. */
  function Encoded(x: seq<byte>): (encoded: string)
    ensures |encoded| % 4 == 0 && 4 * |x| <= 3 * |encoded| <= 4 * |x| + 8
    ensures |encoded| == 0 <==> |x| == 0
  {
    if x == [] then ""
    else if |x| <= 3 then EncodedQuantum(x)
    else EncodedQuantum(x[..3]) + Encoded(x[3..])
  }

  lemma QuantumIsRead(x: seq<byte>, last: bool)
    requires 1 <= |x| <= 3 && (last || |x| == 3)
    ensures IsQuantum(EncodedQuantum(x), last)
  {
    var x0: int, x1: int, x2: int := x[0], if |x| > 1 then x[1] else 0, if |x| > 2 then x[2] else 0;
    SymbolsHaveValues(x0 / 4);
    SymbolsHaveValues(x0 % 4 * 16 + x1 / 16);
    SymbolsHaveValues(x1 % 16 * 4 + x2 / 64);
    SymbolsHaveValues(x2 % 64);
  }

  lemma QuantumComesBack(x: seq<byte>, last: bool)
    requires 1 <= |x| <= 3 && (last || |x| == 3)
    ensures ReadBytes(EncodedQuantum(x), last) == Some(x)
  {
    var x0: int, x1: int, x2: int := x[0], if |x| > 1 then x[1] else 0, if |x| > 2 then x[2] else 0;
    var b, c := x0 % 4 * 16 + x1 / 16, x1 % 16 * 4 + x2 / 64;
    QuantumIsRead(x, last);
    SymbolsHaveValues(x0 / 4);
    SymbolsHaveValues(b);
    SymbolsHaveValues(c);
    SymbolsHaveValues(x2 % 64);
    assert b / 16 == x0 % 4 && b % 16 == x1 / 16;
    assert c / 4 == x1 % 16 && c % 4 == x2 / 64;
    assert QuantumBytes(EncodedQuantum(x)) == x;
  }

  lemma OneMoreQuantum(q: string, rest: string, all: string, last: bool, x: seq<byte>, y: seq<byte>)
    requires |q| == 4 && |rest| % 4 == 0 && all == q + rest && (last <==> |rest| == 0)
    requires ReadBytes(q, last) == Some(x) && Payload(rest) == Some(y)
    ensures Payload(all) == Some(x + y)
  {
    assert all[..4] == q && all[4..] == rest;
  }

  lemma HeadComesBack(head: seq<byte>, tail: seq<byte>, rest: string)
    requires 1 <= |head| <= 3 && (tail == [] || |head| == 3)
    requires |rest| % 4 == 0 && (|rest| == 0 <==> |tail| == 0) && Payload(rest) == Some(tail)
    ensures Payload(EncodedQuantum(head) + rest) == Some(head + tail)
  {
    QuantumComesBack(head, tail == []);
    OneMoreQuantum(EncodedQuantum(head), rest, EncodedQuantum(head) + rest, tail == [], head, tail);
  }

  lemma {:induction false} EncodingComesBack(x: seq<byte>)
    ensures Payload(Encoded(x)) == Some(x)
    decreases |x|
  {
    if x != [] {
      var head, tail := if |x| <= 3 then x else x[..3], if |x| <= 3 then [] else x[3..];
      EncodingComesBack(tail);
      HeadComesBack(head, tail, Encoded(tail));
      assert x == head + tail && Encoded(x) == EncodedQuantum(head) + Encoded(tail);
    }
  }

  /** A payload comes back from its encoding exactly when it is not empty and its encoding fits. */
  lemma DecodeAfterEncode(x: seq<byte>)
    ensures Decode(Encoded(x)) == Ok(x) <==> 0 < |x| <= MAXIMUM_BUNDLE_BYTES / 4 * 3
  {
    EncodingComesBack(x);
    DecodeBySize(x, Encoded(x));
  }

  lemma DecodeBySize(x: seq<byte>, e: string)
    requires |e| % 4 == 0 && 4 * |x| <= 3 * |e| <= 4 * |x| + 8 && Payload(e) == Some(x)
    ensures Decode(e) == Ok(x) <==> 0 < |x| <= MAXIMUM_BUNDLE_BYTES / 4 * 3
  {
    var k := |e| / 4;
    assert |e| == 4 * k;
    assert e == "" <==> |x| == 0;
  }

  /** The alphabet of RFC 4648 section 4: letters, small letters, digits, each in its order, and two signs. */
  lemma SymbolsAreTheAlphabet(v: sextet)
    ensures Symbol(0) == 'A' && Symbol(25) == 'Z' && Symbol(26) == 'a' && Symbol(51) == 'z'
    ensures Symbol(52) == '0' && Symbol(61) == '9' && Symbol(62) == '+' && Symbol(63) == '/'
    ensures v < 62 && v != 25 && v != 51 && v != 61 ==> Symbol(v + 1) as int == Symbol(v) as int + 1
  {
  }

  /** Four test vectors of RFC 4648 section 10, and the two symbols none of them has. */
  lemma PublishedVectors()
    ensures Decode("Zm9v") == Ok([0x66, 0x6f, 0x6f]) && Decode("Zm8=") == Ok([0x66, 0x6f]) && Decode("Zg==") == Ok([0x66])
    ensures Decode("") == BundleMalformed && Decode("+/+/") == Ok([0xfb, 0xff, 0xbf])
  {
    OneQuantum("Zm9v");
    OneQuantum("Zm8=");
    OneQuantum("Zg==");
    OneQuantum("+/+/");
  }

  lemma OneQuantum(q: string)
    requires |q| == 4 && IsQuantum(q, true)
    ensures Decode(q) == Ok(QuantumBytes(q))
  {
    assert q[..4] == q && q[4..] == "" && Payload("") == Some([]);
    assert Payload(q) == Join(ReadBytes(q, true), Some([]));
    assert QuantumBytes(q) + [] == QuantumBytes(q);
  }

  // ---- what decoding forgets

  /** The bits of the last sextet that no byte takes. */
  predicate UnusedBitsAreZero(q: string)
    requires |q| == 4
  {
    if q[2] == '=' then Bits(q[1]) as int % 16 == 0
    else if q[3] == '=' then Bits(q[2]) as int % 4 == 0
    else true
  }

  lemma DigitsComeBack(a: int, b: int, c: int, d: int)
    requires 0 <= a < 64 && 0 <= b < 64 && 0 <= c < 64 && 0 <= d < 64
    ensures (a * 4 + b / 16) / 4 == a && (a * 4 + b / 16) % 4 == b / 16
    ensures (b % 16 * 16 + c / 4) / 16 == b % 16 && (b % 16 * 16 + c / 4) % 16 == c / 4
    ensures (c % 4 * 64 + d) / 64 == c % 4 && (c % 4 * 64 + d) % 64 == d
  {}

  lemma SymbolsDiffer(v: sextet, w: sextet)
    ensures Symbol(v) == Symbol(w) <==> v == w
  {
    SymbolsHaveValues(v);
    SymbolsHaveValues(w);
  }

  lemma TwoPaddings(q: string)
    requires |q| == 4 && IsQuantum(q, true) && q[2] == '='
    ensures EncodedQuantum(QuantumBytes(q)) == [q[0], Symbol(Bits(q[1]) as int / 16 * 16), '=', '=']
  {
    DigitsComeBack(Bits(q[0]), Bits(q[1]), 0, 0);
  }

  lemma OnePadding(q: string)
    requires |q| == 4 && IsQuantum(q, true) && q[2] != '=' && q[3] == '='
    ensures EncodedQuantum(QuantumBytes(q)) == [q[0], q[1], Symbol(Bits(q[2]) as int / 4 * 4), '=']
  {
    var a: int, b: int, c: int := Bits(q[0]), Bits(q[1]), Bits(q[2]);
    DigitsComeBack(a, b, c, 0);
    assert QuantumBytes(q) == [a * 4 + b / 16, b % 16 * 16 + c / 4];
    assert [Symbol(a), Symbol(b)] == [q[0], q[1]];
  }

  lemma NoPadding(q: string)
    requires |q| == 4 && IsQuantum(q, false)
    ensures EncodedQuantum(QuantumBytes(q)) == [q[0], q[1], q[2], q[3]]
  {
    var a, b, c, d := Bits(q[0]), Bits(q[1]), Bits(q[2]), Bits(q[3]);
    DigitsComeBack(a, b, c, d);
    assert QuantumBytes(q) == [a as int * 4 + b as int / 16, b as int % 16 * 16 + c as int / 4, c as int % 4 * 64 + d as int];
    assert [Symbol(a), Symbol(b), Symbol(c), Symbol(d)] == [q[0], q[1], q[2], q[3]];
  }

  /** Decoding forgets the unused bits of a padded quantum, and nothing else. */
  lemma QuantumIsItsEncoding(q: string, last: bool)
    requires |q| == 4 && IsQuantum(q, last)
    ensures EncodedQuantum(QuantumBytes(q)) == q <==> UnusedBitsAreZero(q)
  {
    assert q == [q[0], q[1], q[2], q[3]];
    if q[2] == '=' {
      TwoPaddings(q);
      SymbolsDiffer(Bits(q[1]), Bits(q[1]) as int / 16 * 16);
      assert Symbol(Bits(q[1])) == q[1];
    } else if q[3] == '=' {
      OnePadding(q);
      SymbolsDiffer(Bits(q[2]), Bits(q[2]) as int / 4 * 4);
      assert Symbol(Bits(q[2])) == q[2];
    } else {
      NoPadding(q);
    }
  }

  lemma FullQuantumIsItsEncoding(q: string, x: seq<byte>)
    requires |q| == 4 && ReadBytes(q, false) == Some(x)
    ensures |x| == 3 && EncodedQuantum(x) == q
  {
    NoPadding(q);
    assert q == [q[0], q[1], q[2], q[3]];
  }

  lemma EncodedFrom(x: seq<byte>, y: seq<byte>)
    requires 1 <= |x| <= 3 && (y != [] ==> |x| == 3)
    ensures Encoded(x + y) == EncodedQuantum(x) + Encoded(y)
  {
    if y == [] {
      assert x + y == x;
    } else {
      assert (x + y)[..3] == x && (x + y)[3..] == y;
    }
  }

  lemma {:induction false} PayloadIsNotEmpty(encoded: string)
    requires encoded != "" && |encoded| % 4 == 0 && Payload(encoded).Some?
    ensures Payload(encoded).value != []
  {
    assert ReadBytes(encoded[..4], |encoded| == 4).Some?;
  }

  /** An accepted payload is the encoding of what it decodes to exactly when its unused bits are zero. */
  lemma {:induction false} PayloadIsItsEncoding(encoded: string, x: seq<byte>)
    requires encoded != "" && |encoded| % 4 == 0 && Payload(encoded) == Some(x)
    ensures Encoded(x) == encoded <==> UnusedBitsAreZero(encoded[|encoded| - 4..])
  {
    var q, rest := encoded[..4], encoded[4..];
    var first, tail := ReadBytes(q, |encoded| == 4).value, Payload(rest).value;
    if |encoded| == 4 {
      assert q == encoded && rest == "" && tail == [];
      EncodedFrom(first, tail);
      QuantumIsItsEncoding(q, true);
      assert EncodedQuantum(first) + Encoded(tail) == EncodedQuantum(first);
    } else {
      FullQuantumIsItsEncoding(q, first);
      PayloadIsNotEmpty(rest);
      EncodedFrom(first, tail);
      PayloadIsItsEncoding(rest, tail);
      assert encoded == q + rest && rest[|rest| - 4..] == encoded[|encoded| - 4..];
      assert (q + Encoded(tail))[4..] == Encoded(tail);
    }
  }
}
