/**
  The seal bit by bit: each step of the hash is an exclusive or followed by a product, and each
  digit of the seal is four bits of the hash.
 */
module SealBits {
  import opened RuleSeal

  const FNV_PRIME := 0x100_0000_01b3
  const MODULUS := 0x1_0000_0000_0000_0000

  /** Bit `k` of a number, the least significant first. */
  predicate Bit(n: nat, k: nat) {
    if k == 0 then n % 2 == 1 else Bit(n / 2, k - 1)
  }

  lemma {:induction false} BitsDetermine(m: nat, n: nat, bits: nat)
    requires m < Doubled(bits) && n < Doubled(bits)
    requires forall k | 0 <= k < bits :: Bit(m, k) == Bit(n, k)
    ensures m == n
  {
    if bits > 0 {
      forall k | 0 <= k < bits - 1 ensures Bit(m / 2, k) == Bit(n / 2, k) {
        assert Bit(m, k + 1) == Bit(n, k + 1);
      }
      BitsDetermine(m / 2, n / 2, bits - 1);
      assert Bit(m, 0) == Bit(n, 0);
    }
  }

  lemma {:induction false} BitsOfXor(a: nat, b: nat, bits: nat, k: nat)
    requires k < bits
    ensures Bit(Xor(a, b, bits), k) == (Bit(a, k) != Bit(b, k))
  {
    if k > 0 {
      BitsOfXor(a / 2, b / 2, bits - 1, k - 1);
    }
  }

  lemma {:induction false} BitsOfZero(k: nat)
    ensures !Bit(0, k)
  {
    if k > 0 {
      BitsOfZero(k - 1);
    }
  }

  /** The low `m` bits are those of the remainder, the others those of the quotient. */
  lemma {:induction false} BitsApart(q: nat, r: nat, m: nat, k: nat)
    requires r < Doubled(m)
    ensures q * Doubled(m) + r >= 0
    ensures Bit(q * Doubled(m) + r, k) == if k < m then Bit(r, k) else Bit(q, k - m)
  {
    if m > 0 {
      Halves(q, Doubled(m - 1), r);
      if k > 0 {
        BitsApart(q, r / 2, m - 1, k - 1);
      }
    }
  }

  lemma Halves(q: nat, d: nat, r: nat)
    ensures q * (2 * d) + r >= 0
    ensures (q * (2 * d) + r) / 2 == q * d + r / 2 && (q * (2 * d) + r) % 2 == r % 2
  {
    assert q * (2 * d) == 2 * (q * d);
  }

  lemma Doubled8()
    ensures Doubled(8) == 256
  {
    assert Doubled(4) == 16;
  }

  /** The toggled state is the exclusive or of state and byte, at every bit. */
  lemma BitsOfToggled(h: Word, b: byte, k: nat)
    ensures Bit(Toggled(h, b), k) == (Bit(h, k) != Bit(b, k))
  {
    var q, low := h / 256, h % 256;
    Doubled8();
    BitsApart(q, low, 8, k);
    BitsApart(q, XorByte(low, b), 8, k);
    BitsApart(0, b, 8, k);
    assert h == q * 256 + low && Toggled(h, b) == q * 256 + XorByte(low, b);
    if k < 8 {
      BitsOfXor(low, b, 8, k);
    } else {
      BitsOfZero(k - 8);
    }
  }

  lemma EightMore(n: nat)
    ensures Doubled(n + 8) == 256 * Doubled(n)
  {
    assert Doubled(n + 2) == 4 * Doubled(n);
    assert Doubled(n + 4) == 4 * Doubled(n + 2);
    assert Doubled(n + 6) == 4 * Doubled(n + 4);
    assert Doubled(n + 8) == 4 * Doubled(n + 6);
  }

  lemma WordsAreDoubled64()
    ensures Doubled(64) == MODULUS
  {
    EightMore(0);
    EightMore(8);
    EightMore(16);
    EightMore(24);
    EightMore(32);
    EightMore(40);
    EightMore(48);
    EightMore(56);
  }

  /** `x` is the exclusive or of `h` and `b`, bit by bit. */
  ghost predicate IsXor(x: Word, h: Word, b: byte) {
    forall k | 0 <= k < 64 :: Bit(x, k) == (Bit(h, k) != Bit(b, k))
  }

  /** `next` is the product, modulo 2^64, of the prime and the exclusive or of state and byte. */
  ghost predicate IsFnv1aStep(h: Word, b: byte, next: int) {
    exists x: Word :: IsXor(x, h, b) && next == x * FNV_PRIME % MODULUS
  }

  lemma XorIsUnique(x: Word, y: Word, h: Word, b: byte)
    requires IsXor(x, h, b) && IsXor(y, h, b)
    ensures x == y
  {
    WordsAreDoubled64();
    BitsDetermine(x, y, 64);
  }

  lemma ToggledIsXor(h: Word, b: byte)
    ensures IsXor(Toggled(h, b), h, b)
  {
    forall k | 0 <= k < 64 ensures Bit(Toggled(h, b), k) == (Bit(h, k) != Bit(b, k)) {
      BitsOfToggled(h, b, k);
    }
  }

  lemma OneByteAbsorbed(h: Word, b: byte)
    ensures Absorbed(h, [b]) == Toggled(h, b) * FNV_PRIME % MODULUS
  {
    assert [b][1..] == [];
    assert Absorbed(h, [b]) == Mixed(h, b);
  }

  /** Absorbing one byte is exactly one step of FNV-1a: exclusive or first, then the product. */
  lemma AbsorbingIsAStep(h: Word, b: byte, next: Word)
    ensures Absorbed(h, [b]) == next <==> IsFnv1aStep(h, b, next)
  {
    OneByteAbsorbed(h, b);
    ToggledIsXor(h, b);
    StepIsUnique(h, b, Toggled(h, b), Absorbed(h, [b]), next);
  }

  lemma StepIsUnique(h: Word, b: byte, x: Word, product: Word, next: Word)
    requires IsXor(x, h, b) && product == x * FNV_PRIME % MODULUS
    ensures product == next <==> IsFnv1aStep(h, b, next)
  {
    if IsFnv1aStep(h, b, next) {
      var y: Word :| IsXor(y, h, b) && next == y * FNV_PRIME % MODULUS;
      XorIsUnique(x, y, h, b);
    }
  }

  /** The states FNV-1a goes through on a text, from its published offset basis. */
  ghost predicate IsFnv1a(states: seq<Word>, text: Text) {
    && |states| == |text| + 1 && states[0] == 0xcbf2_9ce4_8422_2325
    && forall i | 0 <= i < |text| :: IsFnv1aStep(states[i], text[i], states[i + 1])
  }

  lemma {:induction false} StatesAreAbsorbed(states: seq<Word>, text: Text, i: nat)
    requires IsFnv1a(states, text) && i <= |text|
    ensures states[i] == Absorbed(OFFSET_BASIS, text[..i])
  {
    if i > 0 {
      StatesAreAbsorbed(states, text, i - 1);
      assert text[..i] == text[..i - 1] + [text[i - 1]];
      AbsorbedConcat(OFFSET_BASIS, text[..i - 1], [text[i - 1]]);
      assert IsFnv1aStep(states[i - 1], text[i - 1], states[i]);
      AbsorbingIsAStep(states[i - 1], text[i - 1], states[i]);
    }
  }

  /** Every text has its states. */
  lemma {:induction false} StatesExist(text: Text) returns (states: seq<Word>)
    ensures IsFnv1a(states, text)
  {
    if text == [] {
      states := [0xcbf2_9ce4_8422_2325];
    } else {
      var front, last := text[..|text| - 1], text[|text| - 1];
      var before := StatesExist(front);
      var next := Absorbed(before[|front|], [last]);
      AbsorbingIsAStep(before[|front|], last, next);
      states := before + [next];
      forall i | 0 <= i < |text| ensures IsFnv1aStep(states[i], text[i], states[i + 1]) {
        if i < |front| {
          assert IsFnv1aStep(before[i], front[i], before[i + 1]);
        }
      }
    }
  }

  // ---- the digits

  /** The value of a lower-case hexadecimal digit. */
  function DigitValue(c: char): int {
    if '0' <= c <= '9' then c as int - '0' as int
    else if 'a' <= c <= 'f' then c as int - 'a' as int + 10
    else -1
  }

  /** The digit at place `i` of sixteen shows the four bits of the hash from bit 60 - 4i on. */
  ghost predicate ShowsNibble(c: char, hash: nat, low: nat) {
    0 <= DigitValue(c) < 16 && forall j | 0 <= j < 4 :: Bit(DigitValue(c), j) == Bit(hash, low + j)
  }

  lemma DigitsHaveTheirValue(d: nat)
    requires d < 16
    ensures DigitValue(HEX_DIGITS[d]) == d
  {
  }

  lemma {:induction false} HexShowsNibbles(n: nat, digits: nat, i: nat)
    requires i < digits
    ensures |Hex(n, digits)| == digits
    ensures ShowsNibble(Hex(n, digits)[i], n, 4 * (digits - 1 - i))
  {
    HexLength(n, digits);
    HexLength(n / 16, digits - 1);
    assert Doubled(4) == 16;
    if i == digits - 1 {
      DigitsHaveTheirValue(n % 16);
      forall j | 0 <= j < 4 ensures Bit(n % 16, j) == Bit(n, j) {
        BitsApart(n / 16, n % 16, 4, j);
      }
    } else {
      HexShowsNibbles(n / 16, digits - 1, i);
      var c := Hex(n, digits)[i];
      assert c == Hex(n / 16, digits - 1)[i];
      var low := 4 * (digits - 1 - i);
      forall j | 0 <= j < 4 ensures Bit(DigitValue(c), j) == Bit(n, low + j) {
        BitsApart(n / 16, n % 16, 4, low + j);
        assert Bit(n / 16, low - 4 + j) == Bit(n, low + j);
      }
    }
  }

  /**
    The seal is the sixteen digits, most significant first, of the state in which FNV-1a leaves the
    payload.
   */
  lemma SealIsFnv1a(rules: seq<Rule>, states: seq<Word>)
    requires IsFnv1a(states, Payload(rules))
    ensures |Seal(rules)| == 24 && Seal(rules)[..8] == "fnv1a64:"
    ensures forall i | 0 <= i < 16 :: ShowsNibble(Seal(rules)[8 + i], states[|Payload(rules)|], 60 - 4 * i)
  {
    var text := Payload(rules);
    StatesAreAbsorbed(states, text, |text|);
    assert text[..|text|] == text;
    var hash := states[|text|];
    HexLength(hash, 16);
    var digits := Hex(hash, 16);
    assert Seal(rules) == "fnv1a64:" + digits;
    forall i | 0 <= i < 16 ensures ShowsNibble(Seal(rules)[8 + i], hash, 60 - 4 * i) {
      HexShowsNibbles(hash, 16, i);
      assert Seal(rules)[8 + i] == digits[i];
    }
  }

  /** Two published values of the function: nothing, and the letter a. */
  lemma PublishedValues()
    ensures Absorbed(OFFSET_BASIS, []) == 0xcbf2_9ce4_8422_2325
    ensures Absorbed(OFFSET_BASIS, [0x61]) == 0xaf63_dc4c_8601_ec8c
  {
    var low: byte := 0x25;
    assert OFFSET_BASIS % 256 == low;
    assert XorByte(low, 0x61) == 0x44 by {
      assert Xor(0x25, 0x61, 8) == 2 * Xor(0x12, 0x30, 7);
      assert Xor(0x12, 0x30, 7) == 2 * Xor(0x9, 0x18, 6);
      assert Xor(0x9, 0x18, 6) == 1 + 2 * Xor(0x4, 0xc, 5);
      assert Xor(0x4, 0xc, 5) == 2 * Xor(0x2, 0x6, 4);
      assert Xor(0x2, 0x6, 4) == 2 * Xor(0x1, 0x3, 3);
      assert Xor(0x1, 0x3, 3) == 2 * Xor(0, 1, 2);
      assert Xor(0, 1, 2) == 1 + 2 * Xor(0, 0, 1);
      assert Xor(0, 0, 1) == 0;
    }
    assert Toggled(OFFSET_BASIS, 0x61) == 0xcbf2_9ce4_8422_2344;
    assert [0x61][1..] == [];
  }
}
