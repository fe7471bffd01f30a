/**
 Text primitives of the Rust standard library, over `seq<char>`.

 A Dafny `char` is a Unicode scalar value, which is what a Rust `char` is, so a Rust `String`
 is a `seq<char>` here and `Utf8` gives the bytes it stores.
 */
module Text {
  import opened Wrappers

  /** Unicode `White_Space`, the class behind Rust's `char::is_whitespace` and `str::trim`. */
  predicate IsWhitespace(c: char) {
    var n := c as int;
    || 0x09 <= n <= 0x0D
    || n in {0x20, 0x85, 0xA0, 0x1680, 0x2028, 0x2029, 0x202F, 0x205F, 0x3000}
    || 0x2000 <= n <= 0x200A
  }

  /** General category `Cc`, Rust's `char::is_control`. */
  predicate IsControl(c: char) {
    var n := c as int;
    n <= 0x1F || 0x7F <= n <= 0x9F
  }

  /** The controls: the first 32 of each half of Latin-1, and delete. */
  lemma ControlsAre(c: char)
    ensures IsControl(c) <==> (c as int < 0x100 && c as int % 0x80 < 0x20) || c as int == 0x7F
  {
  }

  /** The 25 characters with the property, one by one. */
  lemma BlanksAre(c: char)
    ensures IsWhitespace(c)
            <==> c in {'\U{0009}', '\U{000A}', '\U{000B}', '\U{000C}', '\U{000D}', ' ', '\U{0085}', '\U{00A0}', '\U{1680}',
                       '\U{2000}', '\U{2001}', '\U{2002}', '\U{2003}', '\U{2004}', '\U{2005}', '\U{2006}', '\U{2007}', '\U{2008}',
                       '\U{2009}', '\U{200A}', '\U{2028}', '\U{2029}', '\U{202F}', '\U{205F}', '\U{3000}'}
  {
  }

  /** The five separators of `split_ascii_whitespace`; vertical tab is not one of them. */
  predicate IsAsciiWhitespace(c: char) {
    c as int in {0x09, 0x0A, 0x0C, 0x0D, 0x20}
  }

  /** They are the ASCII blanks without the vertical tab. */
  lemma AsciiBlanksAre(c: char)
    ensures IsAsciiWhitespace(c) <==> IsWhitespace(c) && c as int < 0x80 && c as int != 0x0B
  {
  }

  function TrimStart<T>(s: seq<T>, blank: T -> bool): (r: seq<T>)
    ensures |r| <= |s| && r == s[|s| - |r|..]
    ensures forall i :: 0 <= i < |s| - |r| ==> blank(s[i])
    ensures r != [] ==> !blank(r[0])
  {
    if s != [] && blank(s[0]) then TrimStart(s[1..], blank) else s
  }

  function TrimEnd<T>(s: seq<T>, blank: T -> bool): (r: seq<T>)
    ensures |r| <= |s| && r == s[..|r|]
    ensures forall i :: |r| <= i < |s| ==> blank(s[i])
    ensures r != [] ==> !blank(r[|r| - 1])
  {
    if s != [] && blank(s[|s| - 1]) then TrimEnd(s[..|s| - 1], blank) else s
  }

  function TrimBy<T>(s: seq<T>, blank: T -> bool): (r: seq<T>)
    ensures |r| <= |s|
  {
    TrimEnd(TrimStart(s, blank), blank)
  }

  function Trim(s: string): (r: string)
    ensures |r| <= |s|
  {
    TrimBy(s, IsWhitespace)
  }

  predicate AllBlank<T>(s: seq<T>, blank: T -> bool) {
    forall i :: 0 <= i < |s| ==> blank(s[i])
  }

  predicate Trimmed<T>(s: seq<T>, blank: T -> bool) {
    s != [] ==> !blank(s[0]) && !blank(s[|s| - 1])
  }

  lemma {:induction false} TrimStartPadding<T>(pad: seq<T>, s: seq<T>, blank: T -> bool)
    requires AllBlank(pad, blank)
    ensures TrimStart(pad + s, blank) == TrimStart(s, blank)
  {
    if pad == [] {
      assert pad + s == s;
    } else {
      assert (pad + s)[1..] == pad[1..] + s;
      TrimStartPadding(pad[1..], s, blank);
    }
  }

  lemma {:induction false} TrimEndPadding<T>(s: seq<T>, pad: seq<T>, blank: T -> bool)
    requires AllBlank(pad, blank)
    ensures TrimEnd(s + pad, blank) == TrimEnd(s, blank)
  {
    if pad == [] {
      assert s + pad == s;
    } else {
      var init := pad[..|pad| - 1];
      assert (s + pad)[..|s + pad| - 1] == s + init;
      assert (s + pad)[|s + pad| - 1] == pad[|pad| - 1];
      TrimEndPadding(s, init, blank);
    }
  }

  /** Trimming removes exactly the outer padding of a text that has none of its own. */
  lemma TrimOfPadded<T>(left: seq<T>, s: seq<T>, right: seq<T>, blank: T -> bool)
    requires AllBlank(left, blank) && AllBlank(right, blank) && Trimmed(s, blank)
    ensures TrimBy(left + s + right, blank) == s
  {
    assert left + s + right == left + (s + right);
    TrimStartPadding(left, s + right, blank);
    if s == [] {
      TrimStartPadding(right, [], blank);
      assert s + right == right + [];
      assert TrimStart<T>([], blank) == [];
    } else {
      assert TrimStart(s + right, blank) == s + right;
      TrimEndPadding(s, right, blank);
    }
  }

  /** A text is its trimmed core between two blank paddings. */
  lemma TrimDecomposes<T>(s: seq<T>, blank: T -> bool) returns (left: seq<T>, right: seq<T>)
    ensures s == left + TrimBy(s, blank) + right
    ensures AllBlank(left, blank) && AllBlank(right, blank) && Trimmed(TrimBy(s, blank), blank)
  {
    hide TrimStart, TrimEnd;
    var start := TrimStart(s, blank);
    var core := TrimEnd(start, blank);
    left, right := s[..|s| - |start|], start[|core|..];
    Rejoins(s, |s| - |start|);
    Rejoins(start, |core|);
    Assoc(left, core, right);
    assert forall i :: 0 <= i < |right| ==> right[i] == start[|core| + i];
    assert core != [] ==> core[0] == start[0];
  }

  lemma Rejoins<T>(s: seq<T>, i: nat)
    requires i <= |s|
    ensures s == s[..i] + s[i..]
  {
  }

  lemma Assoc<T>(a: seq<T>, b: seq<T>, c: seq<T>)
    ensures (a + b) + c == a + (b + c)
  {
  }

  /** The first position at which `pattern` occurs in `s`: Rust's `str::find`. */
  function IndexOf<T(==)>(s: seq<T>, pattern: seq<T>): (r: Option<nat>)
    ensures r.Some? ==> OccursAt(s, pattern, r.value)
    ensures r.Some? ==> forall i :: 0 <= i < r.value ==> !OccursAt(s, pattern, i)
    ensures r.None? ==> forall i :: !OccursAt(s, pattern, i)
  {
    if pattern <= s then
      assert OccursAt(s, pattern, 0);
      Some(0)
    else if s == [] then None
    else
      var r := IndexOf(s[1..], pattern);
      assert forall i {:trigger OccursAt(s, pattern, i)} :: i > 0 && OccursAt(s, pattern, i) ==> OccursAt(s[1..], pattern, i - 1) by {
        forall i | i > 0 && OccursAt(s, pattern, i) ensures OccursAt(s[1..], pattern, i - 1) {
          assert s[i..] == s[1..][i - 1..];
        }
      }
      if r.None? then None
      else
        assert s[1..][r.value..] == s[r.value + 1..];
        Some(r.value + 1)
  }

  predicate OccursAt<T(==)>(s: seq<T>, pattern: seq<T>, i: int) {
    0 <= i <= |s| && pattern <= s[i..]
  }

  predicate Contains<T(==)>(s: seq<T>, pattern: seq<T>)
    ensures Contains(s, pattern) <==> exists i :: OccursAt(s, pattern, i)
  {
    IndexOf(s, pattern).Some?
  }

  lemma ContainsShift(s: string, pattern: string)
    requires s != ""
    ensures Contains(s, pattern) <==> pattern <= s || Contains(s[1..], pattern)
  {
  }

  /** The first occurrence is determined by where it is and by nothing earlier matching. */
  lemma IndexOfIs<T>(s: seq<T>, pattern: seq<T>, at: nat)
    requires OccursAt(s, pattern, at)
    requires forall i :: 0 <= i < at ==> !OccursAt(s, pattern, i)
    ensures IndexOf(s, pattern) == Some(at)
  {
  }

  /** The first position of a character: `str::find` with a `char`. */
  function FindChar(s: string, c: char): (r: Option<nat>)
    ensures r.None? <==> c !in s
    ensures r.Some? ==> r.value < |s| && s[r.value] == c && c !in s[..r.value]
  {
    if s == "" then None
    else if s[0] == c then Some(0)
    else
      var r := FindChar(s[1..], c);
      if r.None? then None
      else
        assert s[..r.value + 1] == [s[0]] + s[1..][..r.value];
        Some(r.value + 1)
  }

  lemma FoundChar(x: string, c: char, y: string)
    requires c !in x
    ensures FindChar(x + ([c] + y), c) == Some(|x|)
  {
    var s := x + ([c] + y);
    var at := FindChar(s, c).value;
    assert s[|x|] == c;
    assert forall i :: 0 <= i < |x| ==> x[i] != c && s[i] == x[i];
    assert forall i :: 0 <= i < at ==> s[..at][i] != c && s[i] == s[..at][i];
  }

  /** Cutting at the first separator is unambiguous when the left parts do not hold it. */
  lemma CutAtSeparator<T>(x: seq<T>, x': seq<T>, sep: T, y: seq<T>, y': seq<T>)
    requires sep !in x && sep !in x'
    requires x + [sep] + y == x' + [sep] + y'
    ensures x == x' && y == y'
  {
    var s, s' := x + [sep] + y, x' + [sep] + y';
    assert s[|x|] == sep && s[|x'|] == sep;
    assert forall i :: 0 <= i < |x| ==> s[i] == x[i];
    assert forall i :: 0 <= i < |x'| ==> s[i] == x'[i];
    assert x == s[..|x|] && x' == s'[..|x'|];
    assert y == s[|x| + 1..] && y' == s'[|x'| + 1..];
  }

  /** `str::replace`: every non-overlapping occurrence, left to right. */
  function ReplaceAll(s: string, pattern: string, text: string): string
    requires pattern != ""
    decreases |s|
  {
    if s == "" then ""
    else if pattern <= s then text + ReplaceAll(s[|pattern|..], pattern, text)
    else [s[0]] + ReplaceAll(s[1..], pattern, text)
  }

  /** The pieces with `separator` between any two: Rust's `join`. */
  function Join<T>(pieces: seq<seq<T>>, separator: seq<T>): seq<T> {
    if pieces == [] then []
    else if |pieces| == 1 then pieces[0]
    else pieces[0] + separator + Join(pieces[1..], separator)
  }

  lemma JoinCons<T>(first: seq<T>, more: seq<seq<T>>, separator: seq<T>)
    requires more != []
    ensures Join([first] + more, separator) == first + separator + Join(more, separator)
  {
    assert ([first] + more)[1..] == more;
  }

  lemma JoinOne<T>(piece: seq<T>, separator: seq<T>)
    ensures Join([piece], separator) == piece
  {
  }

  function Repeat(c: char, n: nat): (r: string)
    ensures |r| == n && forall i :: 0 <= i < n ==> r[i] == c
  {
    seq(n, _ => c)
  }

  function HexDigit(d: nat): (c: char)
    requires d < 16
  {
    "0123456789abcdef"[d]
  }

  // ---------- UTF-8 ----------

  newtype u8 = x: int | 0 <= x < 256

  function Utf8Char(c: char): (r: seq<u8>)
    ensures 1 <= |r| <= 4
    ensures c as int < 0x80 ==> r == [c as u8]
  {
    var n := c as int;
    if n < 0x80 then [n as u8]
    else if n < 0x800 then [(0xC0 + n / 0x40) as u8, (0x80 + n % 0x40) as u8]
    else if n < 0x1_0000 then
      [(0xE0 + n / 0x1000) as u8, (0x80 + n / 0x40 % 0x40) as u8, (0x80 + n % 0x40) as u8]
    else
      [(0xF0 + n / 0x4_0000) as u8, (0x80 + n / 0x1000 % 0x40) as u8, (0x80 + n / 0x40 % 0x40) as u8,
       (0x80 + n % 0x40) as u8]
  }

  /** The low bits of `bytes` from the `i`-th on, six at a time, after `lead`. */
  function Payload(lead: int, bytes: seq<u8>): int
    decreases |bytes|
  {
    if bytes == [] then lead else Payload(lead * 0x40 + bytes[0] as int % 0x40, bytes[1..])
  }

  /**
   The encoding read back, as section 3 of RFC 3629 lays it out: the first byte gives the length, and
   the low bits of all bytes together give the code point.
   */
  lemma Utf8Decodes(c: char)
    ensures var (n, r) := (c as int, Utf8Char(c));
            && |r| == (if n < 0x80 then 1 else if n < 0x800 then 2 else if n < 0x1_0000 then 3 else 4)
            && Payload(LeadBits(|r|, r[0]), r[1..]) == n
            && forall i :: 1 <= i < |r| ==> r[i] as int / 0x40 == 2
  {
    Continuations(c);
    PayloadIs(c);
  }

  lemma Continuations(c: char)
    ensures forall i :: 1 <= i < |Utf8Char(c)| ==> Utf8Char(c)[i] as int / 0x40 == 2
  {
  }

  lemma PayloadIs(c: char)
    ensures Payload(LeadBits(|Utf8Char(c)|, Utf8Char(c)[0]), Utf8Char(c)[1..]) == c as int
  {
    var (n, r) := (c as int, Utf8Char(c));
    hide Payload;
    NextPayload(LeadBits(|r|, r[0]), r[1..]);
    if |r| == 2 {
      NextPayload(n, r[1..][1..]);
    } else if |r| == 3 {
      MiddleDecodes(n, r);
    } else if |r| == 4 {
      LongDecodes(n, r);
    }
  }

  lemma NextPayload(lead: int, bytes: seq<u8>)
    ensures Payload(lead, bytes) == if bytes == [] then lead else Payload(lead * 0x40 + bytes[0] as int % 0x40, bytes[1..])
  {
  }

  /** The bits of a first byte below its length marker. */
  function LeadBits(length: nat, first: u8): int {
    var b := first as int;
    if length == 1 then b else if length == 2 then b % 0x20 else if length == 3 then b % 0x10 else b % 8
  }

  lemma MiddleDecodes(n: int, r: seq<u8>)
    requires 0x800 <= n < 0x1_0000 && |r| == 3
    requires r[0] as int == 0xE0 + n / 0x1000 && r[1] as int == 0x80 + n / 0x40 % 0x40 && r[2] as int == 0x80 + n % 0x40
    ensures Payload(LeadBits(3, r[0]), r[1..]) == n
  {
    assert n / 0x40 / 0x40 == n / 0x1000;
    var p1, p2 := r[1..], r[1..][1..];
    assert p1[0] == r[1] && p2[0] == r[2] && p2[1..] == [];
    var l1 := LeadBits(3, r[0]) * 0x40 + r[1] as int % 0x40;
    assert l1 == n / 0x40;
    assert Payload(l1, p2) == l1 * 0x40 + r[2] as int % 0x40;
  }

  lemma LongDecodes(n: int, r: seq<u8>)
    requires 0x1_0000 <= n < 0x11_0000 && |r| == 4
    requires r[0] as int == 0xF0 + n / 0x4_0000 && r[1] as int == 0x80 + n / 0x1000 % 0x40
    requires r[2] as int == 0x80 + n / 0x40 % 0x40 && r[3] as int == 0x80 + n % 0x40
    ensures Payload(LeadBits(4, r[0]), r[1..]) == n
  {
    assert n / 0x40 / 0x40 == n / 0x1000 && n / 0x1000 / 0x40 == n / 0x4_0000;
    var p1, p2, p3 := r[1..], r[1..][1..], r[1..][1..][1..];
    assert p1[0] == r[1] && p2[0] == r[2] && p3[0] == r[3] && p3[1..] == [];
    var l0 := LeadBits(4, r[0]);
    assert l0 == n / 0x4_0000;
    var l1 := l0 * 0x40 + r[1] as int % 0x40;
    assert l1 == n / 0x1000;
    var l2 := l1 * 0x40 + r[2] as int % 0x40;
    assert l2 == n / 0x40;
    assert Payload(l2, p3) == l2 * 0x40 + r[3] as int % 0x40;
    assert Payload(l1, p2) == Payload(l2, p3);
    assert Payload(l0, p1) == Payload(l1, p2);
  }

  /** `str::as_bytes`. */
  function Utf8(s: string): seq<u8> {
    if s == "" then [] else Utf8Char(s[0]) + Utf8(s[1..])
  }

  lemma {:induction false} Utf8Concat(s: string, t: string)
    ensures Utf8(s + t) == Utf8(s) + Utf8(t)
  {
    if s == "" {
      assert s + t == t;
    } else {
      assert (s + t)[1..] == s[1..] + t;
      Utf8Concat(s[1..], t);
    }
  }
}
