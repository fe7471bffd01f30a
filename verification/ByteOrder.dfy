/** Rust compares strings byte by byte; on UTF-8 that is the order of the code points. */
module ByteOrder {
  import opened Text
  import opened KeyOrder

  /** `Ord` for byte slices: lexicographic, a proper prefix first. */
  predicate ByteLe(x: seq<u8>, y: seq<u8>) {
    if x == [] then true
    else if y == [] then false
    else if x[0] != y[0] then x[0] < y[0]
    else ByteLe(x[1..], y[1..])
  }

  lemma {:induction false} SharedPrefix(p: seq<u8>, x: seq<u8>, y: seq<u8>)
    ensures ByteLe(p + x, p + y) <==> ByteLe(x, y)
  {
    if p == [] {
      assert p + x == x && p + y == y;
    } else {
      assert (p + x)[1..] == p[1..] + x && (p + y)[1..] == p[1..] + y;
      SharedPrefix(p[1..], x, y);
    }
  }

  /** The first differing byte decides, whatever follows. */
  lemma FirstDifference(x: seq<u8>, y: seq<u8>, k: nat, s: seq<u8>, t: seq<u8>)
    requires k < |x| && k < |y| && x[..k] == y[..k] && x[k] < y[k]
    ensures ByteLe(x + s, y + t) && !ByteLe(y + t, x + s)
  {
    var (p, u, v) := (x[..k], x[k..] + s, y[k..] + t);
    assert x + s == p + u && y + t == p + v;
    assert u[0] == x[k] && v[0] == y[k];
    SharedPrefix(p, u, v);
    SharedPrefix(p, v, u);
  }

  /** Of two characters, the encoding of the smaller has the smaller byte where they first differ. */
  lemma CharOrder(c: char, d: char) returns (k: nat)
    requires c < d
    ensures var (x, y) := (Utf8Char(c), Utf8Char(d));
            k < |x| && k < |y| && x[..k] == y[..k] && x[k] < y[k]
  {
    var x, y := Utf8Char(c), Utf8Char(d);
    if |x| != |y| {
      LongerIsGreater(c, d);
      k := 0;
    } else {
      k := SameLengthOrder(c, d);
    }
  }

  lemma LongerIsGreater(c: char, d: char)
    requires c < d && |Utf8Char(c)| != |Utf8Char(d)|
    ensures Utf8Char(c)[0] < Utf8Char(d)[0]
  {
  }

  lemma SameLengthOrder(c: char, d: char) returns (k: nat)
    requires c < d && |Utf8Char(c)| == |Utf8Char(d)|
    ensures var (x, y) := (Utf8Char(c), Utf8Char(d));
            k < |x| && x[..k] == y[..k] && x[k] < y[k]
  {
    var m, n := c as int, d as int;
    k := DigitOrder(m, n, |Utf8Char(c)| - 1);
    hide Digit;
    SpelledByDigits(c);
    SpelledByDigits(d);
    var x, y := Utf8Char(c), Utf8Char(d);
    assert forall i :: 0 <= i < k ==> x[i] == y[i];
  }

  /** The base-64 digit of `n` at position `i` from the front, with `last` more after the first. */
  function Digit(n: int, last: int, i: int): int
    requires n >= 0
  {
    var shifted := if last - i <= 0 then n else if last - i == 1 then n / 0x40 else if last - i == 2 then n / 0x1000 else n / 0x4_0000;
    if i == 0 then shifted else shifted % 0x40
  }

  /** The bytes are the digits, each with the tag of its place. */
  lemma SpelledByDigits(c: char)
    ensures var x := Utf8Char(c);
            forall i :: 0 <= i < |x| ==> x[i] as int == Digit(c as int, |x| - 1, i) + Tag(|x|, i)
  {
  }

  function Tag(length: int, i: int): int {
    if i > 0 then 0x80 else if length == 1 then 0 else if length == 2 then 0xC0 else if length == 3 then 0xE0 else 0xF0
  }

  /** The larger of two numbers has the larger digit where they first differ. */
  lemma DigitOrder(m: int, n: int, last: nat) returns (k: nat)
    requires 0 <= m < n && last <= 3
    ensures k <= last && (forall i :: 0 <= i < k ==> Digit(m, last, i) == Digit(n, last, i)) && Digit(m, last, k) < Digit(n, last, k)
  {
    Digits(m);
    Digits(n);
    if Digit(m, last, 0) != Digit(n, last, 0) {
      k := 0;
    } else if Digit(m, last, 1) != Digit(n, last, 1) {
      k := 1;
    } else if Digit(m, last, 2) != Digit(n, last, 2) {
      k := 2;
    } else {
      k := 3;
    }
  }

  /** A number in base 64, one digit split off at a time. */
  lemma Digits(n: int)
    requires n >= 0
    ensures n == n / 0x40 * 0x40 + n % 0x40
    ensures n / 0x40 == n / 0x1000 * 0x40 + n / 0x40 % 0x40
    ensures n / 0x1000 == n / 0x4_0000 * 0x40 + n / 0x1000 % 0x40
  {
    assert n / 0x40 / 0x40 == n / 0x1000;
    assert n / 0x1000 / 0x40 == n / 0x4_0000;
  }

  /** The order keys are sorted in is the order of their UTF-8 bytes. */
  lemma {:induction false} LeIsByteOrder(a: string, b: string)
    ensures Le(a, b) <==> ByteLe(Utf8(a), Utf8(b))
    decreases |a|
  {
    hide Utf8Char;
    if a != "" && b != "" {
      var (x, y) := (Utf8Char(a[0]), Utf8Char(b[0]));
      if a[0] == b[0] {
        LeIsByteOrder(a[1..], b[1..]);
        SharedPrefix(x, Utf8(a[1..]), Utf8(b[1..]));
      } else if a[0] < b[0] {
        var k := CharOrder(a[0], b[0]);
        FirstDifference(x, y, k, Utf8(a[1..]), Utf8(b[1..]));
      } else {
        var k := CharOrder(b[0], a[0]);
        FirstDifference(y, x, k, Utf8(b[1..]), Utf8(a[1..]));
      }
    }
  }
}
