/** What the statement scanner treats as a unit, in code units: quotes, comments, dollar bodies. */
module ScannerModes {
  import opened Wrappers
  import opened Text
  import opened StatementLexer

  /** ASCII digits, letters and the underscore. */
  predicate WordUnit(c: CodeUnit) {
    0x30 <= c <= 0x39 || 0x41 <= c <= 0x5A || c == 0x5F || 0x61 <= c <= 0x7A
  }

  /** Two dollar signs with word characters, or nothing, between them. */
  predicate DollarTag(t: Utf16) {
    && |t| >= 2 && t[0] == 0x24 && t[|t| - 1] == 0x24
    && forall i :: 1 <= i < |t| - 1 ==> WordUnit(t[i])
  }

  // ---------- tags ----------

  lemma {:induction false} WordRunIs(s: Utf16, n: nat)
    requires n < |s| && (forall i :: 0 <= i < n ==> WordUnit(s[i])) && !WordUnit(s[n])
    ensures WordRun(s) == n
    decreases n
  {
    if n > 0 {
      WordRunIs(s[1..], n - 1);
    }
  }

  /** A tag is found exactly where one stands, the empty tag included. */
  lemma TagAtIff(s: Utf16, t: Utf16)
    ensures TagAt(s) == Some(t) <==> t <= s && DollarTag(t)
  {
    if t <= s && DollarTag(t) {
      assert forall i :: 0 <= i < |t| ==> s[i] == t[i];
      var (rest, n) := (s[1..], |t| - 2);
      forall i | 0 <= i < n ensures WordUnit(rest[i]) {
        assert rest[i] == t[i + 1];
      }
      WordRunIs(rest, n);
      assert s[..n + 2] == t;
    }
    if TagAt(s) == Some(t) {
      var n := 1 + WordRun(s[1..]);
      forall i | 1 <= i < |t| - 1 ensures WordUnit(t[i]) {
        assert t[i] == s[1..][i - 1];
      }
    }
  }

  lemma TagOpens(tag: Utf16, rest: Utf16)
    requires DollarTag(tag)
    ensures IsTag(tag) && TurnAt(Normal, tag + rest) == Take(|tag|, InDollar(tag))
  {
    TagAtIff(tag + rest, tag);
  }

  // ---------- dollar bodies ----------

  lemma BodyTurn(tag: Utf16, s: Utf16)
    requires s != [] && ProperMode(InDollar(tag))
    ensures TurnAt(InDollar(tag), s) == if tag <= s then Take(|tag|, Normal) else Take(1, InDollar(tag))
  {
  }

  /** Occurrences in a text and in the text without its first code unit. */
  lemma OccursLater(s: Utf16, tag: Utf16, i: int)
    requires s != [] && i >= 0
    ensures OccursAt(s[1..], tag, i) <==> OccursAt(s, tag, i + 1)
  {
    if i <= |s| - 1 {
      assert s[1..][i..] == s[i + 1..];
    }
  }

  lemma FirstOccursLater(s: Utf16, tag: Utf16, k: nat)
    requires k > 0 && IndexOf(s, tag) == Some(k)
    ensures s != [] && !(tag <= s) && IndexOf(s[1..], tag) == Some(k - 1)
  {
    hide IndexOf, OccursAt;
    assert OccursAt(s, tag, k) && !OccursAt(s, tag, 0);
    NotHere(s, tag, k);
    OccursLater(s, tag, k - 1);
    forall i | 0 <= i < k - 1 ensures !OccursAt(s[1..], tag, i) {
      OccursLater(s, tag, i);
      assert !OccursAt(s, tag, i + 1);
    }
    IndexOfIs(s[1..], tag, k - 1);
  }

  lemma NotHere(s: Utf16, tag: Utf16, k: nat)
    requires k > 0 && OccursAt(s, tag, k) && !OccursAt(s, tag, 0)
    ensures s != [] && !(tag <= s)
  {
    assert s[0..] == s;
  }

  /** Inside a dollar body everything is skipped up to the first occurrence of its tag. */
  lemma {:induction false} BodySkips(tag: Utf16, s: Utf16, k: nat)
    requires DollarTag(tag) && ProperMode(InDollar(tag)) && IndexOf(s, tag) == Some(k)
    ensures k + |tag| <= |s| && RunOver(InDollar(tag), s) == RunOver(Normal, s[k + |tag|..])
    decreases k
  {
    hide IndexOf, TurnAt, RunOver, OccursAt;
    OccursThere(s, tag, k);
    if k == 0 {
      BodyTurn(tag, s);
      RunTurn(InDollar(tag), s);
    } else {
      FirstOccursLater(s, tag, k);
      BodyTurn(tag, s);
      RunTurn(InDollar(tag), s);
      BodySkips(tag, s[1..], k - 1);
      assert s[1..][k - 1 + |tag|..] == s[k + |tag|..];
    }
  }

  lemma OccursThere(s: Utf16, tag: Utf16, k: nat)
    requires tag != [] && OccursAt(s, tag, k)
    ensures k + |tag| <= |s| && (k == 0 ==> tag <= s)
  {
    if k == 0 {
      assert s[0..] == s;
    }
  }

  /** Without another occurrence of the tag the body never ends. */
  lemma {:induction false} BodyStaysOpen(tag: Utf16, s: Utf16)
    requires DollarTag(tag) && ProperMode(InDollar(tag)) && IndexOf(s, tag).None?
    ensures RunOver(InDollar(tag), s) == Some(InDollar(tag))
  {
    hide IndexOf, TurnAt, OccursAt;
    if s != [] {
      assert !OccursAt(s, tag, 0);
      Nowhere(s, tag);
      BodyTurn(tag, s);
      RunTurn(InDollar(tag), s);
      BodyStaysOpen(tag, s[1..]);
    }
  }

  lemma Nowhere(s: Utf16, tag: Utf16)
    requires s != [] && IndexOf(s, tag).None?
    ensures !(tag <= s) && IndexOf(s[1..], tag).None?
  {
    hide IndexOf, OccursAt;
    assert !OccursAt(s, tag, 0) && s[0..] == s;
    assert !(tag <= s) by {
      StartsThere(s, tag);
    }
    forall i ensures !OccursAt(s[1..], tag, i) {
      if i >= 0 {
        OccursLater(s, tag, i);
        assert !OccursAt(s, tag, i + 1);
      } else {
        NoNegative(s[1..], tag, i);
      }
    }
  }

  lemma StartsThere(s: Utf16, tag: Utf16)
    ensures OccursAt(s, tag, 0) <==> tag <= s
  {
    assert s[0..] == s;
  }

  lemma NoNegative(s: Utf16, tag: Utf16, i: int)
    requires i < 0
    ensures !OccursAt(s, tag, i)
  {
  }

  /** What a tag opens in normal mode closes at its next occurrence, and only there. */
  lemma DollarBodyCloses(tag: Utf16, s: Utf16)
    requires DollarTag(tag)
    ensures ProperMode(InDollar(tag))
    ensures var close := IndexOf(s, tag);
            RunOver(Normal, tag + s) == if close.None? then Some(InDollar(tag)) else RunOver(Normal, s[close.value + |tag|..])
  {
    hide IndexOf, TurnAt;
    TagOpens(tag, s);
    assert (tag + s)[|tag|..] == s;
    RunTurn(Normal, tag + s);
    if IndexOf(s, tag).Some? {
      BodySkips(tag, s, IndexOf(s, tag).value);
    } else {
      BodyStaysOpen(tag, s);
    }
  }

  /** The end of a tag that an earlier close left over is ordinary text. */
  lemma {:induction false} LeftoverRuns(r: Utf16)
    requires r == [] || (r[|r| - 1] == 0x24 && forall i :: 0 <= i < |r| - 1 ==> WordUnit(r[i]))
    ensures RunOver(Normal, r) == Some(Normal)
    decreases |r|
  {
    if r != [] {
      LeftoverRuns(r[1..]);
      if |r| == 1 {
        NoTagAlone(r);
      }
      assert TurnAt(Normal, r) == Take(1, Normal);
    }
  }

  lemma NoTagAlone(r: Utf16)
    requires |r| == 1
    ensures TagAt(r).None?
  {
  }

  /** An occurrence that ends within the first part is an occurrence in it. */
  lemma OccursWithin(body: Utf16, tag: Utf16, k: nat)
    requires OccursAt(body + tag, tag, k)
    ensures k + |tag| <= |body| ==> OccursAt(body, tag, k)
  {
    if k + |tag| <= |body| {
      assert body[k..][..|tag|] == (body + tag)[k..][..|tag|];
    }
  }

  /** A tag, a body that does not hold it, and the tag again are scanned back to normal mode uncut. */
  lemma DollarBodyIsUncut(tag: Utf16, body: Utf16)
    requires DollarTag(tag) && !Contains(body, tag)
    ensures RunOver(Normal, tag + body + tag) == Some(Normal)
  {
    hide IndexOf, TurnAt;
    var s := body + tag;
    assert tag + body + tag == tag + s;
    DollarBodyCloses(tag, s);
    assert s[|body|..] == tag;
    assert OccursAt(s, tag, |body|);
    var k := IndexOf(s, tag).value;
    OccursWithin(body, tag, k);
    var r := s[k + |tag|..];
    forall i | 0 <= i < |r| ensures r[i] == tag[|tag| - |r| + i] {
      assert r[i] == s[k + |tag| + i];
    }
    LeftoverRuns(r);
  }

  /** The bare form of every function body: one statement, whatever semicolons stand inside. */
  lemma BareDollarBody(body: Utf16)
    requires !Contains(body, [0x24, 0x24])
    ensures RawPieces([0x24, 0x24] + body + [0x24, 0x24]) == [[0x24, 0x24] + body + [0x24, 0x24]]
  {
    var s := [0x24, 0x24] + body + [0x24, 0x24];
    DollarBodyIsUncut([0x24, 0x24], body);
    UncutIsOnePiece(Normal, s, []);
    assert [] + s == s;
  }

  // ---------- quotes, comments, plain text ----------

  lemma {:induction false} SkipsTo(mode: Mode, body: Utf16, close: CodeUnit)
    requires (mode == InSingle && close == 0x27) || (mode == InDouble && close == 0x22) || (mode == InLineComment && close == 0x0A)
    requires close !in body
    ensures RunOver(mode, body + [close]) == Some(Normal)
    decreases |body|
  {
    var s := body + [close];
    if body == [] {
      assert s == [close] && s[1..] == [];
    } else {
      assert s[1..] == body[1..] + [close];
      SkipsTo(mode, body[1..], close);
    }
  }

  /** Text in single quotes, and in double quotes, is scanned uncut up to the next such quote. */
  lemma QuotedIsUncut(body: Utf16)
    ensures 0x27 !in body ==> RunOver(Normal, [0x27] + (body + [0x27])) == Some(Normal)
    ensures 0x22 !in body ==> RunOver(Normal, [0x22] + (body + [0x22])) == Some(Normal)
  {
    hide TurnAt;
    OpensQuote(body + [0x27], body + [0x22]);
    var (single, double) := ([0x27] + (body + [0x27]), [0x22] + (body + [0x22]));
    assert single[1..] == body + [0x27] && double[1..] == body + [0x22];
    RunTurn(Normal, single);
    RunTurn(Normal, double);
    if 0x27 !in body {
      SkipsTo(InSingle, body, 0x27);
    }
    if 0x22 !in body {
      SkipsTo(InDouble, body, 0x22);
    }
  }

  lemma OpensQuote(x: Utf16, y: Utf16)
    ensures TurnAt(Normal, [0x27] + x) == Take(1, InSingle) && TurnAt(Normal, [0x22] + y) == Take(1, InDouble)
    ensures ProperMode(Normal)
  {
  }

  /** Two dashes comment out everything up to the end of the line. */
  lemma CommentIsUncut(body: Utf16)
    requires 0x0A !in body
    ensures RunOver(Normal, [0x2D, 0x2D] + (body + [0x0A])) == Some(Normal)
  {
    var s := [0x2D, 0x2D] + (body + [0x0A]);
    var rest := [0x2D] + body;
    assert s[1..] == rest + [0x0A];
    SkipsTo(InLineComment, rest, 0x0A);
    assert TurnAt(Normal, s) == Take(1, InLineComment);
  }

  /** Text without quotes, dashes, dollars and semicolons stays in normal mode uncut. */
  lemma {:induction false} PlainIsUncut(s: Utf16)
    requires forall c :: c in s ==> c !in {0x22, 0x24, 0x27, 0x2D, 0x3B}
    ensures RunOver(Normal, s) == Some(Normal)
  {
    if s != [] {
      assert s[0] in s && forall c :: c in s[1..] ==> c in s;
      PlainIsUncut(s[1..]);
    }
  }

  /** A semicolon reached in normal mode ends the piece; the script goes on after it. */
  lemma SemicolonSplits(s: Utf16, rest: Utf16)
    requires ProperMode(Normal) && RunOver(Normal, s) == Some(Normal)
    ensures RawPieces(s + ([0x3B] + rest)) == [s] + RawPieces(rest)
  {
    CutAfter(Normal, s, rest, []);
    assert [] + s == s;
  }
}
