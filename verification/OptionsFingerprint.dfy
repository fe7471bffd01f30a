/** `options_fingerprint`: the canonical form of a target's options and overlay, and its hash. */
module OptionsFingerprint {
  import opened Wrappers
  import opened Text
  import opened KeyOrder
  import opened HeaderFields
  import opened Fnv

  type Entry = (string, string)

  function KeyOf(e: Entry): string { e.0 }

  function EntryLine(e: Entry): string {
    "opt\t" + Sanitize(e.0) + "\t" + Sanitize(e.1) + "\n"
  }

  function OverlayLine(overlay: Option<string>): string {
    if overlay.Some? then "manifest\t" + Sanitize(overlay.value) + "\n" else ""
  }

  function EntryLines(entries: seq<Entry>): string {
    if entries == [] then "" else EntryLine(entries[0]) + EntryLines(entries[1..])
  }

  function Body(entries: seq<Entry>, overlay: Option<string>): string {
    EntryLines(entries) + OverlayLine(overlay)
  }

  /** The text that is hashed: entries sorted by key, then the overlay's contents. */
  function Canonical(options: seq<Entry>, overlay: Option<string>): string {
    Body(SortByKey(KeyOf, options), overlay)
  }

  function Fingerprint(options: seq<Entry>, overlay: Option<string>): string {
    "opt1:" + Hex16(Hash(Utf8(Canonical(options, overlay))))
  }

  lemma {:induction false} EntryLinesConcat(xs: seq<Entry>, ys: seq<Entry>)
    ensures EntryLines(xs + ys) == EntryLines(xs) + EntryLines(ys)
  {
    hide EntryLine;
    if xs == [] {
      assert xs + ys == ys;
    } else {
      assert (xs + ys)[1..] == xs[1..] + ys;
      EntryLinesConcat(xs[1..], ys);
    }
  }

  method ComputeFingerprint(options: seq<Entry>, overlay: Option<string>) returns (fingerprint: string)
    ensures fingerprint == Fingerprint(options, overlay)
  {
    hide Sanitize, SortByKey, Hash, Utf8, Hex16, EntryLines, OverlayLine, EntryLine;
    var sorted := SortByKey(KeyOf, options);
    var canonical := "";
    NoEntryLines();
    assert sorted[..0] == [];
    for i := 0 to |sorted|
      invariant canonical == EntryLines(sorted[..i])
    {
      var e := sorted[i];
      EntryLinesConcat(sorted[..i], [e]);
      assert sorted[..i + 1] == sorted[..i] + [e];
      OneLine(e);
      ghost var before := canonical;
      canonical := canonical + "opt\t";
      var key := SanitizeField(e.0);
      canonical := canonical + key;
      canonical := canonical + "\t";
      var value := SanitizeField(e.1);
      canonical := canonical + value;
      canonical := canonical + "\n";
      EntryLineIs(e, before);
    }
    assert sorted[..|sorted|] == sorted;
    ghost var lines := canonical;
    if overlay.Some? {
      canonical := canonical + "manifest\t";
      var text := SanitizeField(overlay.value);
      canonical := canonical + text;
      canonical := canonical + "\n";
    }
    OverlayLineIs(overlay, lines);
    var hash := Fnv1a64(Utf8(canonical));
    fingerprint := "opt1:" + Hex16(hash);
  }

  lemma NoEntryLines()
    ensures EntryLines([]) == ""
  {
  }

  lemma EntryLineIs(e: Entry, before: string)
    ensures before + "opt\t" + Sanitize(e.0) + "\t" + Sanitize(e.1) + "\n" == before + EntryLine(e)
  {
    hide Sanitize;
  }

  lemma OverlayLineIs(overlay: Option<string>, lines: string)
    ensures overlay.Some? ==> lines + "manifest\t" + Sanitize(overlay.value) + "\n" == lines + OverlayLine(overlay)
    ensures overlay.None? ==> lines == lines + OverlayLine(overlay)
  {
    hide Sanitize;
  }

  // ---------- the canonical form says everything ----------

  lemma NoDelimiters(value: string)
    ensures '\t' !in Sanitize(value) && '\n' !in Sanitize(value)
  {
    SanitizedIsLineSafe(value);
  }

  /** A leading entry can be read off uniquely. */
  lemma EntryLineUnique(e: Entry, f: Entry, x: string, y: string)
    requires EntryLine(e) + x == EntryLine(f) + y
    ensures e == f && x == y
  {
    hide Sanitize;
    NoDelimiters(e.0);
    NoDelimiters(f.0);
    NoDelimiters(e.1);
    NoDelimiters(f.1);
    var (a, b) := (EntryLine(e) + x, EntryLine(f) + y);
    var (restE, restF) := (Sanitize(e.1) + "\n" + x, Sanitize(f.1) + "\n" + y);
    assert a == "opt\t" + (Sanitize(e.0) + "\t" + restE);
    assert b == "opt\t" + (Sanitize(f.0) + "\t" + restF);
    assert a[4..] == Sanitize(e.0) + "\t" + restE && b[4..] == Sanitize(f.0) + "\t" + restF;
    CutAtSeparator(Sanitize(e.0), Sanitize(f.0), '\t', restE, restF);
    CutAtSeparator(Sanitize(e.1), Sanitize(f.1), '\n', x, y);
    SanitizeInjective(e.0, f.0);
    SanitizeInjective(e.1, f.1);
  }

  lemma OverlayLineUnique(o: Option<string>, q: Option<string>)
    requires OverlayLine(o) == OverlayLine(q)
    ensures o == q
  {
    hide Sanitize;
    if o.Some? && q.Some? {
      var (a, b) := (OverlayLine(o), OverlayLine(q));
      assert a[9..|a| - 1] == Sanitize(o.value) && b[9..|b| - 1] == Sanitize(q.value);
      SanitizeInjective(o.value, q.value);
    }
  }

  lemma HeadLine(entries: seq<Entry>, overlay: Option<string>)
    requires entries != []
    ensures Body(entries, overlay) == EntryLine(entries[0]) + Body(entries[1..], overlay)
  {
    hide EntryLine, OverlayLine;
  }

  lemma NoLines(overlay: Option<string>)
    ensures Body([], overlay) == OverlayLine(overlay)
  {
    hide OverlayLine;
  }

  lemma {:induction false} LinesUnique(xs: seq<Entry>, o: Option<string>, ys: seq<Entry>, q: Option<string>)
    requires Body(xs, o) == Body(ys, q)
    ensures xs == ys && o == q
    decreases |xs|
  {
    hide Body, EntryLine, OverlayLine;
    NoLines(o);
    NoLines(q);
    if xs == [] && ys == [] {
      OverlayLineUnique(o, q);
    } else if xs != [] && ys != [] {
      HeadLine(xs, o);
      HeadLine(ys, q);
      EntryLineUnique(xs[0], ys[0], Body(xs[1..], o), Body(ys[1..], q));
      LinesUnique(xs[1..], o, ys[1..], q);
      assert xs == [xs[0]] + xs[1..] && ys == [ys[0]] + ys[1..];
    } else if xs == [] {
      HeadLine(ys, q);
      OverlayIsNoEntry(o, ys[0], Body(ys[1..], q));
      assert false;
    } else {
      HeadLine(xs, o);
      OverlayIsNoEntry(q, xs[0], Body(xs[1..], o));
      assert false;
    }
  }

  lemma OverlayIsNoEntry(o: Option<string>, e: Entry, rest: string)
    ensures OverlayLine(o) != EntryLine(e) + rest
  {
    hide Sanitize;
    var line := EntryLine(e) + rest;
    assert line[0] == 'o';
    if o.Some? {
      assert OverlayLine(o)[0] == 'm';
    }
  }

  /**
   Two option lists with distinct keys and two optional overlays have one canonical text exactly
   when they are the same entries, in whatever order, and the same overlay, whatever tabs,
   newlines or backslashes the texts hold.
   */
  lemma CanonicalDecides(xs: seq<Entry>, o: Option<string>, ys: seq<Entry>, q: Option<string>)
    requires DistinctKeys(KeyOf, xs) && DistinctKeys(KeyOf, ys)
    ensures Canonical(xs, o) == Canonical(ys, q) <==> multiset(xs) == multiset(ys) && o == q
  {
    hide Body, DistinctKeys, SortByKey;
    if multiset(xs) == multiset(ys) && o == q {
      SortForgetsInputOrder(KeyOf, xs, ys);
    }
    if Canonical(xs, o) == Canonical(ys, q) {
      LinesUnique(SortByKey(KeyOf, xs), o, SortByKey(KeyOf, ys), q);
      SortedResult(KeyOf, xs);
      SortedResult(KeyOf, ys);
    }
  }

  // ---------- one changed character ----------

  predicate PlainAscii(c: char) {
    c as int < 0x80 && !NeedsEscape(c)
  }

  /** Replacing one plain ASCII character replaces exactly one byte. */
  lemma OneCharOneByte(pre: string, c: char, d: char, post: string) returns (at: nat)
    requires c as int < 0x80 && d as int < 0x80 && c != d
    ensures DifferAtOnly(Utf8(pre + [c] + post), Utf8(pre + [d] + post), at)
  {
    hide Utf8Char;
    at := |Utf8(pre)|;
    Utf8Concat(pre + [c], post);
    Utf8Concat(pre, [c]);
    Utf8Concat(pre + [d], post);
    Utf8Concat(pre, [d]);
    OneAscii(c);
    OneAscii(d);
    var (x, y) := (Utf8(pre + [c] + post), Utf8(pre + [d] + post));
    assert x == Utf8(pre) + [c as u8] + Utf8(post) && y == Utf8(pre) + [d as u8] + Utf8(post);
  }

  lemma OneAscii(c: char)
    requires c as int < 0x80
    ensures Utf8([c]) == [c as u8]
  {
    assert [c][1..] == "";
  }

  /** The line of an entry around one plain character of its value. */
  lemma EntryLineAround(key: string, s: string, c: char, t: string)
    requires PlainAscii(c)
    ensures EntryLine((key, s + [c] + t)) == ("opt\t" + Sanitize(key) + "\t" + Sanitize(s)) + [c] + (Sanitize(t) + "\n")
  {
    hide Sanitize, NeedsEscape;
    SanitizeAround(s, c, t);
  }

  /** Where a value's character sits in the canonical text of entries already sorted. */
  lemma CharInLines(sorted: seq<Entry>, i: nat, p: nat, d: char) returns (pre: string, post: string)
    requires i < |sorted| && p < |sorted[i].1|
    requires PlainAscii(sorted[i].1[p]) && PlainAscii(d)
    ensures EntryLines(sorted) == pre + [sorted[i].1[p]] + post
    ensures EntryLines(sorted[i := (sorted[i].0, sorted[i].1[p := d])]) == pre + [d] + post
  {
    hide Sanitize, NeedsEscape, EntryLine, EntryLines;
    var e := sorted[i];
    var c := e.1[p];
    var f := (e.0, e.1[p := d]);
    var (s, t) := (e.1[..p], e.1[p + 1..]);
    assert e.1 == s + [c] + t && f.1 == s + [d] + t;
    SplitLines(sorted, i);
    SplitLines(sorted[i := f], i);
    assert sorted[i := f][..i] == sorted[..i] && sorted[i := f][i + 1..] == sorted[i + 1..];
    EntryLineAround(e.0, s, c, t);
    EntryLineAround(e.0, s, d, t);
    pre, post := Regroup(EntryLines(sorted[..i]), "opt\t" + Sanitize(e.0) + "\t" + Sanitize(s), c, d,
                         Sanitize(t) + "\n", EntryLines(sorted[i + 1..]));
  }

  lemma Regroup(x: string, h: string, c: char, d: char, t: string, y: string) returns (pre: string, post: string)
    ensures x + (h + [c] + t) + y == pre + [c] + post
    ensures x + (h + [d] + t) + y == pre + [d] + post
  {
    pre, post := x + h, t + y;
  }

  lemma OneLine(e: Entry)
    ensures EntryLines([e]) == EntryLine(e)
  {
    assert [e][1..] == [];
  }

  lemma SplitLines(entries: seq<Entry>, i: nat)
    requires i < |entries|
    ensures EntryLines(entries) == EntryLines(entries[..i]) + EntryLine(entries[i]) + EntryLines(entries[i + 1..])
  {
    hide EntryLine, EntryLines;
    var (before, after) := (entries[..i], entries[i + 1..]);
    assert entries == before + [entries[i]] + after;
    EntryLinesConcat(before + [entries[i]], after);
    EntryLinesConcat(before, [entries[i]]);
    OneLine(entries[i]);
  }

  lemma SanitizeAround(s: string, c: char, t: string)
    requires PlainAscii(c)
    ensures Sanitize(s + [c] + t) == Sanitize(s) + [c] + Sanitize(t)
  {
    hide Sanitize;
    SanitizeConcat(s + [c], t);
    SanitizeConcat(s, [c]);
    OnePlain(c);
  }

  lemma OnePlain(c: char)
    requires PlainAscii(c)
    ensures Sanitize([c]) == [c]
  {
    hide IsWhitespace, IsControl;
    PlainIsUnchanged([c]);
  }

  /** Changing a value moves no entry: the sort looks at keys only. */
  lemma SortIgnoresValues(xs: seq<Entry>, i: nat, value: string) returns (j: nat)
    requires DistinctKeys(KeyOf, xs) && i < |xs|
    ensures var sorted := SortByKey(KeyOf, xs);
            && j < |sorted| && sorted[j] == xs[i]
            && SortByKey(KeyOf, xs[i := (xs[i].0, value)]) == sorted[j := (xs[i].0, value)]
  {
    hide SortByKey, SortedBy, DistinctKeys;
    var e, f := xs[i], (xs[i].0, value);
    var sorted := SortByKey(KeyOf, xs);
    SortedResult(KeyOf, xs);
    MultisetMembers(sorted, xs);
    assert e in sorted;
    j :| 0 <= j < |sorted| && sorted[j] == e;
    DistinctKeysOfPermutation(KeyOf, xs, sorted);
    SameKeys(xs, i, f);
    SameKeys(sorted, j, f);
    Replaced(xs, i, f);
    Replaced(sorted, j, f);
    SortForgetsInputOrder(KeyOf, xs[i := f], sorted[j := f]);
    SortedStays(sorted[j := f]);
  }

  lemma SameKeys(xs: seq<Entry>, i: nat, f: Entry)
    requires i < |xs| && f.0 == xs[i].0
    ensures DistinctKeys(KeyOf, xs) ==> DistinctKeys(KeyOf, xs[i := f])
    ensures SortedBy(KeyOf, xs) ==> SortedBy(KeyOf, xs[i := f])
  {
    hide Le;
    assert forall k :: 0 <= k < |xs| ==> KeyOf(xs[i := f][k]) == KeyOf(xs[k]);
  }

  lemma Replaced(xs: seq<Entry>, i: nat, f: Entry)
    requires i < |xs|
    ensures multiset(xs[i := f]) == multiset(xs) - multiset{xs[i]} + multiset{f}
  {
  }

  lemma SortedStays(xs: seq<Entry>)
    requires SortedBy(KeyOf, xs) && DistinctKeys(KeyOf, xs)
    ensures SortByKey(KeyOf, xs) == xs
  {
    hide SortByKey, SortedBy, DistinctKeys;
    SortedResult(KeyOf, xs);
    SortedIsUnique(KeyOf, xs, SortByKey(KeyOf, xs));
  }

  /**
   Editing one plain ASCII character of one option value always changes the fingerprint: the
   canonical texts differ in one byte, and FNV-1a never collides on such a pair.
   */
  lemma OneCharacterEditIsSeen(options: seq<Entry>, overlay: Option<string>, i: nat, p: nat, d: char)
    requires DistinctKeys(KeyOf, options) && i < |options| && p < |options[i].1|
    requires PlainAscii(options[i].1[p]) && PlainAscii(d) && d != options[i].1[p]
    ensures Fingerprint(options[i := (options[i].0, options[i].1[p := d])], overlay) != Fingerprint(options, overlay)
  {
    hide EntryLines, OverlayLine, Utf8, Hash, Hex16, DistinctKeys, NeedsEscape;
    var e := options[i];
    var edited := options[i := (e.0, e.1[p := d])];
    var j := SortIgnoresValues(options, i, e.1[p := d]);
    var pre, post := CharInLines(SortByKey(KeyOf, options), j, p, d);
    var tail := post + OverlayLine(overlay);
    assert Canonical(options, overlay) == pre + [e.1[p]] + tail;
    assert Canonical(edited, overlay) == pre + [d] + tail;
    var at := OneCharOneByte(pre, e.1[p], d, tail);
    OneByteNeverCollides(Utf8(Canonical(options, overlay)), Utf8(Canonical(edited, overlay)), at);
    var (g, h) := (Hash(Utf8(Canonical(options, overlay))), Hash(Utf8(Canonical(edited, overlay))));
    Hex16Injective(g, h);
    assert Fingerprint(options, overlay)[5..] == Hex16(g) && Fingerprint(edited, overlay)[5..] == Hex16(h);
  }

  // ---------- the shape of a fingerprint ----------

  /** The tag, then the sixteen small hexadecimal digits of the hash of the canonical text. */
  lemma FingerprintShape(options: seq<Entry>, overlay: Option<string>)
    ensures var f := Fingerprint(options, overlay);
            && |f| == 21 && f[..5] == "opt1:"
            && (forall c :: c in f[5..] ==> '0' <= c <= '9' || 'a' <= c <= 'f')
            && HexRun(f[5..]) == Some(Hash(Utf8(Canonical(options, overlay))) as int)
  {
    hide Hash, Utf8, Canonical;
    var h := Hash(Utf8(Canonical(options, overlay)));
    SixteenDigits();
    FixedHexReads(h as int, 16);
    assert Fingerprint(options, overlay)[5..] == Hex16(h);
  }

  lemma {:induction false} FixedHexReads(n: nat, width: nat)
    requires n < Power16(width)
    ensures HexRun(FixedHex(n, width)) == Some(n)
    ensures forall c :: c in FixedHex(n, width) ==> '0' <= c <= '9' || 'a' <= c <= 'f'
    decreases width
  {
    hide HexRun, HexValue, HexDigit;
    NoDigits();
    if width == 0 {
      assert n == 0;
    } else {
      FixedHexReads(n / 16, width - 1);
      DigitRoundTrip(n % 16);
      DigitIsSmall(n % 16);
      OneMoreDigit(FixedHex(n / 16, width - 1), HexDigit(n % 16));
    }
  }

  lemma NoDigits()
    ensures HexRun("") == Some(0)
  {
  }

  lemma DigitIsSmall(d: nat)
    requires d < 16
    ensures '0' <= HexDigit(d) <= '9' || 'a' <= HexDigit(d) <= 'f'
  {
  }

  /** Two options out of order and an overlay, as the text that is hashed. */
  lemma CanonicalSpelled(v: char, w: char, x: char)
    requires PlainAscii(v) && PlainAscii(w) && PlainAscii(x)
    ensures Canonical([("b", [w]), ("a", [v])], Some([x]))
         == ("opt\t" + "a" + "\t" + [v] + "\n") + (("opt\t" + "b" + "\t" + [w] + "\n") + "") + ("manifest\t" + [x] + "\n")
  {
    hide Sanitize, EntryLine;
    var e: Entry := ("a", [v]);
    var f: Entry := ("b", [w]);
    var options: seq<Entry> := [f, e];
    assert options[1..] == [e] && options[1..][1..] == [];
    assert SortByKey(KeyOf, options[1..]) == [e] by {
      assert [e][1..] == [] && SortByKey(KeyOf, [e]) == InsertByKey(KeyOf, e, []);
    }
    assert InsertByKey(KeyOf, f, [e]) == [e] + InsertByKey(KeyOf, f, []) by {
      assert !Le(KeyOf(f), KeyOf(e)) && [e][1..] == [];
    }
    assert SortByKey(KeyOf, options) == [e, f];
    assert [e, f][1..] == [f] && [e, f][1..][1..] == [];
    assert e == (['a'], [v]) && f == (['b'], [w]);
    LineSpelled('a', v);
    LineSpelled('b', w);
    OnePlain(x);
    NoEntryLines();
    assert EntryLines([e, f]) == EntryLine(e) + (EntryLine(f) + "");
  }

  lemma LineSpelled(key: char, value: char)
    requires PlainAscii(key) && PlainAscii(value)
    ensures EntryLine(([key], [value])) == "opt\t" + [key] + "\t" + [value] + "\n"
  {
    hide Sanitize;
    OnePlain(key);
    OnePlain(value);
  }
}
