/**
 FNV-1a, 64-bit (draft-eastlake-fnv, section 2), as `fnv1a_64` computes it: every step is a
 bijection of the 64-bit state, so texts of one length that differ in one byte never collide.
 */
module Fnv {
  import opened Text

  const WORD: int := 0x1_0000_0000_0000_0000
  const OFFSET_BASIS: int := 0xcbf29ce484222325
  const PRIME: int := 0x0000_0100_0000_01b3

  /** The inverse of the prime modulo 2^64. */
  const PRIME_INVERSE: int := 0xce965057aff6957b

  newtype u64 = x: int | 0 <= x < 0x1_0000_0000_0000_0000

  /** Bitwise exclusive or of the low `bits` bits. */
  function Xor(x: nat, y: nat, bits: nat): nat {
    if bits == 0 then 0
    else 2 * Xor(x / 2, y / 2, bits - 1) + (if x % 2 != y % 2 then 1 else 0)
  }

  function Power2(n: nat): (p: nat)
    ensures p > 0
  {
    if n == 0 then 1 else 2 * Power2(n - 1)
  }

  lemma WordIsPower()
    ensures Power2(64) == WORD
  {
    assert Power2(8) == 0x100;
    assert Power2(16) == 0x1_0000;
    assert Power2(24) == 0x100_0000;
    assert Power2(32) == 0x1_0000_0000;
    assert Power2(40) == 0x100_0000_0000;
    assert Power2(48) == 0x1_0000_0000_0000;
    assert Power2(56) == 0x100_0000_0000_0000;
  }

  lemma {:induction false} XorBound(x: nat, y: nat, bits: nat)
    ensures Xor(x, y, bits) < Power2(bits)
  {
    if bits > 0 {
      XorBound(x / 2, y / 2, bits - 1);
    }
  }

  /** Exclusive or with the same operand twice changes nothing. */
  lemma {:induction false} XorUndone(x: nat, y: nat, bits: nat)
    requires x < Power2(bits)
    ensures Xor(Xor(x, y, bits), y, bits) == x
  {
    if bits > 0 {
      XorUndone(x / 2, y / 2, bits - 1);
      var r := Xor(x, y, bits);
      assert r / 2 == Xor(x / 2, y / 2, bits - 1);
    }
  }

  lemma {:induction false} XorCommutes(x: nat, y: nat, bits: nat)
    ensures Xor(x, y, bits) == Xor(y, x, bits)
  {
    if bits > 0 {
      XorCommutes(x / 2, y / 2, bits - 1);
    }
  }

  /** `hash ^ u64::from(byte)`. */
  function XorByte(hash: u64, byte: u8): u64 {
    WordIsPower();
    XorBound(hash as int, byte as int, 64);
    Xor(hash as int, byte as int, 64) as u64
  }

  /** `wrapping_mul`. */
  function WrappingMul(x: u64, y: int): u64
    requires y >= 0
  {
    (x as int * y % WORD) as u64
  }

  function Step(hash: u64, byte: u8): u64 {
    WrappingMul(XorByte(hash, byte), PRIME)
  }

  function Hash(bytes: seq<u8>): u64 {
    if bytes == [] then OFFSET_BASIS as u64 else Step(Hash(bytes[..|bytes| - 1]), bytes[|bytes| - 1])
  }

  method Fnv1a64(bytes: seq<u8>) returns (hash: u64)
    ensures hash == Hash(bytes)
  {
    hash := OFFSET_BASIS as u64;
    for i := 0 to |bytes|
      invariant hash == Hash(bytes[..i])
    {
      assert bytes[..i + 1][..i] == bytes[..i];
      hash := XorByte(hash, bytes[i]);
      hash := WrappingMul(hash, PRIME);
    }
    assert bytes[..|bytes|] == bytes;
  }

  // ---------- every step is a bijection ----------

  lemma PrimeIsInvertible()
    ensures PRIME * PRIME_INVERSE % WORD == 1
  {
  }

  lemma ModProduct(x: int, y: int, m: int)
    requires x >= 0 && y >= 0 && m > 0
    ensures (x % m) * y % m == x * y % m
  {
    var q := x / m;
    assert x == q * m + x % m;
    assert x * y == (q * y) * m + (x % m) * y;
    AddMultiple((x % m) * y, q * y, m);
  }

  lemma AddMultiple(x: int, k: int, m: int)
    requires m > 0
    ensures (k * m + x) % m == x % m
  {
    var (q, r) := (x / m, x % m);
    assert k * m + x == (k + q) * m + r;
    DivModUnique(k * m + x, k + q, r, m);
  }

  lemma DivModUnique(x: int, q: int, r: int, m: int)
    requires m > 0 && 0 <= r < m && x == q * m + r
    ensures x % m == r
  {
    var d := x / m - q;
    assert d * m == r - x % m;
    assert d >= 1 ==> d * m >= m;
    assert d <= -1 ==> d * m <= -m;
  }

  /** Multiplying by the inverse undoes the multiplication. */
  lemma MulUndone(x: u64)
    ensures WrappingMul(WrappingMul(x, PRIME), PRIME_INVERSE) == x
  {
    var n := x as int;
    ModProduct(n * PRIME, PRIME_INVERSE, WORD);
    assert n * PRIME * PRIME_INVERSE == n * (PRIME * PRIME_INVERSE);
    PrimeIsInvertible();
    var k := PRIME * PRIME_INVERSE / WORD;
    assert PRIME * PRIME_INVERSE == k * WORD + 1;
    assert n * (k * WORD + 1) == (n * k) * WORD + n;
    AddMultiple(n, n * k, WORD);
  }

  lemma StepInjectiveInHash(g: u64, h: u64, byte: u8)
    requires Step(g, byte) == Step(h, byte)
    ensures g == h
  {
    hide WrappingMul, Xor;
    MulUndone(XorByte(g, byte));
    MulUndone(XorByte(h, byte));
    WordIsPower();
    XorUndone(g as int, byte as int, 64);
    XorUndone(h as int, byte as int, 64);
  }

  lemma StepInjectiveInByte(hash: u64, b: u8, c: u8)
    requires Step(hash, b) == Step(hash, c)
    ensures b == c
  {
    hide WrappingMul, Xor;
    MulUndone(XorByte(hash, b));
    MulUndone(XorByte(hash, c));
    WordIsPower();
    XorCommutes(hash as int, b as int, 64);
    XorCommutes(hash as int, c as int, 64);
    XorUndone(b as int, hash as int, 64);
    XorUndone(c as int, hash as int, 64);
  }

  // ---------- no collision at one differing byte ----------

  ghost predicate DifferAtOnly(x: seq<u8>, y: seq<u8>, at: nat) {
    && |x| == |y| && at < |x| && x[at] != y[at]
    && forall i :: 0 <= i < |x| && i != at ==> x[i] == y[i]
  }

  lemma {:induction false} OneByteNeverCollides(x: seq<u8>, y: seq<u8>, at: nat)
    requires DifferAtOnly(x, y, at)
    ensures Hash(x) != Hash(y)
    decreases |x|
  {
    hide Step;
    var n := |x| - 1;
    if Hash(x) == Hash(y) {
      if at == n {
        assert x[..n] == y[..n];
        StepInjectiveInByte(Hash(x[..n]), x[n], y[n]);
      } else {
        assert x[n] == y[n];
        StepInjectiveInHash(Hash(x[..n]), Hash(y[..n]), x[n]);
        OneByteNeverCollides(x[..n], y[..n], at);
      }
      assert false;
    }
  }

  // ---------- the sixteen-digit hexadecimal form ----------

  /** The low `width` hexadecimal digits, most significant first: `{:0width$x}`. */
  function FixedHex(n: nat, width: nat): (s: string)
    ensures |s| == width
  {
    if width == 0 then "" else FixedHex(n / 16, width - 1) + [HexDigit(n % 16)]
  }

  function Power16(k: nat): (p: nat)
    ensures p > 0
  {
    if k == 0 then 1 else 16 * Power16(k - 1)
  }

  lemma {:induction false} FixedHexInjective(m: nat, n: nat, width: nat)
    requires m < Power16(width) && n < Power16(width)
    requires FixedHex(m, width) == FixedHex(n, width)
    ensures m == n
    decreases width
  {
    if width > 0 {
      var (x, y) := (FixedHex(m / 16, width - 1), FixedHex(n / 16, width - 1));
      assert FixedHex(m, width)[..width - 1] == x && FixedHex(n, width)[..width - 1] == y;
      assert FixedHex(m, width)[width - 1] == HexDigit(m % 16) && FixedHex(n, width)[width - 1] == HexDigit(n % 16);
      FixedHexInjective(m / 16, n / 16, width - 1);
      DigitInjective(m % 16, n % 16);
    }
  }

  lemma DigitInjective(d: int, e: int)
    requires 0 <= d < 16 && 0 <= e < 16 && HexDigit(d) == HexDigit(e)
    ensures d == e
  {
  }

  /** `{hash:016x}`. */
  function Hex16(hash: u64): string {
    FixedHex(hash as int, 16)
  }

  lemma Hex16Injective(g: u64, h: u64)
    ensures Hex16(g) == Hex16(h) <==> g == h
  {
    if Hex16(g) == Hex16(h) {
      SixteenDigits();
      FixedHexInjective(g as int, h as int, 16);
    }
  }

  lemma SixteenDigits()
    ensures Power16(16) == WORD
  {
    assert Power16(4) == 0x1_0000;
    assert Power16(8) == 0x1_0000_0000;
    assert Power16(12) == 0x1_0000_0000_0000;
  }

  // ---------- bits and published values ----------

  function Bit(n: nat, i: nat): nat {
    if i == 0 then n % 2 else Bit(n / 2, i - 1)
  }

  /** Each bit of the exclusive or says whether the two bits differ. */
  lemma {:induction false} XorBits(x: nat, y: nat, bits: nat, i: nat)
    requires i < bits
    ensures Bit(Xor(x, y, bits), i) == if Bit(x, i) != Bit(y, i) then 1 else 0
    decreases i
  {
    var r := Xor(x, y, bits);
    assert r / 2 == Xor(x / 2, y / 2, bits - 1);
    if i > 0 {
      XorBits(x / 2, y / 2, bits - 1, i - 1);
    }
  }

  lemma {:induction false} XorZero(x: nat, bits: nat)
    requires x < Power2(bits)
    ensures Xor(x, 0, bits) == x
  {
    if bits > 0 {
      XorZero(x / 2, bits - 1);
    }
  }

  /** A small operand touches only the low bits. */
  lemma {:induction false} XorLow(q: nat, r: nat, y: nat, low: nat, bits: nat)
    requires low <= bits && r < Power2(low) && y < Power2(low) && q * Power2(low) + r < Power2(bits)
    ensures Xor(q * Power2(low) + r, y, bits) == q * Power2(low) + Xor(r, y, low)
    decreases low
  {
    var x := q * Power2(low) + r;
    if low == 0 {
      XorZero(x, bits);
    } else {
      var p := Power2(low - 1);
      DoubleProduct(q, p);
      assert x == 2 * (q * p) + r;
      assert x / 2 == q * p + r / 2 && x % 2 == r % 2;
      XorLow(q, r / 2, y / 2, low - 1, bits - 1);
    }
  }

  lemma DoubleProduct(q: nat, p: nat)
    ensures q * (2 * p) == 2 * (q * p)
  {
  }

  /** One step on a given hash: the low byte mixed, then the product, modulo 2^64. */
  lemma StepIs(hash: u64, byte: u8, mixed: nat, next: u64)
    requires Xor(hash as int % 0x100, byte as int, 8) == mixed
    requires (hash as int - hash as int % 0x100 + mixed) * 0x100000001b3 % 0x1_0000_0000_0000_0000 == next as int
    ensures Step(hash, byte) == next
  {
    hide Xor, Power2;
    var (q, r) := (hash as int / 0x100, hash as int % 0x100);
    WordIsPower();
    ByteIsPower();
    XorLow(q, r, byte as int, 8, 64);
    assert q * 0x100 + r == hash as int;
  }

  lemma ByteIsPower()
    ensures Power2(8) == 0x100
  {
  }

  lemma NextHash(bytes: seq<u8>, k: nat)
    requires k < |bytes|
    ensures Hash(bytes[..k + 1]) == Step(Hash(bytes[..k]), bytes[k])
    ensures Hash(bytes[..0]) == 0xcbf29ce484222325
  {
    assert bytes[..k + 1][..k] == bytes[..k];
  }

  lemma {:induction false} AsciiBytes(s: string, bytes: seq<u8>)
    requires |s| == |bytes| && forall i :: 0 <= i < |s| ==> s[i] as int < 0x80 && bytes[i] as int == s[i] as int
    ensures Utf8(s) == bytes
  {
    if s != "" {
      AsciiBytes(s[1..], bytes[1..]);
      assert Utf8Char(s[0]) == [bytes[0]] && bytes == [bytes[0]] + bytes[1..];
    }
  }

  /** The hash of nothing is the offset basis. */
  lemma HashOfNothing()
    ensures Hash([]) == 0xcbf29ce484222325
  {
  }

  lemma XorStep(x: nat, y: nat, bits: nat)
    requires bits > 0
    ensures Xor(x, y, bits) == 2 * Xor(x / 2, y / 2, bits - 1) + Differ(x, y)
    ensures Xor(x, y, 0) == 0
  {
  }

  /** Whether the lowest bits differ. */
  function Differ(x: nat, y: nat): nat {
    if x % 2 != y % 2 then 1 else 0
  }

  /** The exclusive or of two bytes, its eight bits added up. */
  lemma ByteXor(x: nat, y: nat)
    ensures Xor(x, y, 8)
         == Differ(x, y) + 2 * Differ(x / 2, y / 2) + 4 * Differ(x / 4, y / 4) + 8 * Differ(x / 8, y / 8)
            + 16 * Differ(x / 16, y / 16) + 32 * Differ(x / 32, y / 32) + 64 * Differ(x / 64, y / 64) + 128 * Differ(x / 128, y / 128)
  {
    hide Xor, Differ;
    assert x / 2 / 2 == x / 4 && x / 4 / 2 == x / 8 && x / 8 / 2 == x / 16 && x / 16 / 2 == x / 32 && x / 32 / 2 == x / 64 && x / 64 / 2 == x / 128;
    assert y / 2 / 2 == y / 4 && y / 4 / 2 == y / 8 && y / 8 / 2 == y / 16 && y / 16 / 2 == y / 32 && y / 32 / 2 == y / 64 && y / 64 / 2 == y / 128;
    XorStep(x, y, 8);
    XorStep(x / 2, y / 2, 7);
    XorStep(x / 4, y / 4, 6);
    XorStep(x / 8, y / 8, 5);
    XorStep(x / 16, y / 16, 4);
    XorStep(x / 32, y / 32, 3);
    XorStep(x / 64, y / 64, 2);
    XorStep(x / 128, y / 128, 1);
    XorStep(x / 128 / 2, y / 128 / 2, 1);
  }

  lemma LetterStep1()
    ensures Step(0xcbf29ce484222325, 97) == 0xaf63dc4c8601ec8c
  {
    hide Xor, Step;
    assert Xor(0x25, 97, 8) == 0x44 by {
      ByteXor(0x25, 97);
    }
    StepIs(0xcbf29ce484222325, 97, 0x44, 0xaf63dc4c8601ec8c);
  }

  /** The value the draft publishes for one letter. */
  lemma HashOfA()
    ensures Hash(Utf8("a")) == 0xaf63dc4c8601ec8c
  {
    hide Hash, Step, Utf8;
    var b: seq<u8> := [97];
    AsciiBytes("a", b);
    LetterStep1();
    NextHash(b, 0);
    assert b[..1] == b;
  }

  lemma WordStep1()
    ensures Step(0xcbf29ce484222325, 102) == 0xaf63db4c8601ead9
  {
    hide Xor, Step;
    assert Xor(0x25, 102, 8) == 0x43 by {
      ByteXor(0x25, 102);
    }
    StepIs(0xcbf29ce484222325, 102, 0x43, 0xaf63db4c8601ead9);
  }

  lemma WordStep2()
    ensures Step(0xaf63db4c8601ead9, 111) == 0x8985907b541d342
  {
    hide Xor, Step;
    assert Xor(0xd9, 111, 8) == 0xb6 by {
      ByteXor(0xd9, 111);
    }
    StepIs(0xaf63db4c8601ead9, 111, 0xb6, 0x8985907b541d342);
  }

  lemma WordStep3()
    ensures Step(0x8985907b541d342, 111) == 0xdcb27518fed9d577
  {
    hide Xor, Step;
    assert Xor(0x42, 111, 8) == 0x2d by {
      ByteXor(0x42, 111);
    }
    StepIs(0x8985907b541d342, 111, 0x2d, 0xdcb27518fed9d577);
  }

  lemma WordStep4()
    ensures Step(0xdcb27518fed9d577, 98) == 0xdd120e790c2512af
  {
    hide Xor, Step;
    assert Xor(0x77, 98, 8) == 0x15 by {
      ByteXor(0x77, 98);
    }
    StepIs(0xdcb27518fed9d577, 98, 0x15, 0xdd120e790c2512af);
  }

  lemma WordStep5()
    ensures Step(0xdd120e790c2512af, 97) == 0xcac165afa2fef40a
  {
    hide Xor, Step;
    assert Xor(0xaf, 97, 8) == 0xce by {
      ByteXor(0xaf, 97);
    }
    StepIs(0xdd120e790c2512af, 97, 0xce, 0xcac165afa2fef40a);
  }

  lemma WordStep6()
    ensures Step(0xcac165afa2fef40a, 114) == 0x85944171f73967e8
  {
    hide Xor, Step;
    assert Xor(0xa, 114, 8) == 0x78 by {
      ByteXor(0xa, 114);
    }
    StepIs(0xcac165afa2fef40a, 114, 0x78, 0x85944171f73967e8);
  }

  /** And the one for a word. */
  lemma HashOfFoobar()
    ensures Hash(Utf8("foobar")) == 0x85944171f73967e8
  {
    hide Hash, Step, Utf8;
    var b: seq<u8> := [102, 111, 111, 98, 97, 114];
    AsciiBytes("foobar", b);
    WordStep1();
    NextHash(b, 0);
    WordStep2();
    NextHash(b, 1);
    WordStep3();
    NextHash(b, 2);
    WordStep4();
    NextHash(b, 3);
    WordStep5();
    NextHash(b, 4);
    WordStep6();
    NextHash(b, 5);
    assert b[..6] == b;
  }
}
