/**
 Splitting a SQL script at its top-level semicolons: the five modes of the scanner, the raw pieces
 it cuts a script into, and the statements that remain after trimming. Text is UTF-16, as in both
 ports of the splitter.
 */
module StatementLexer {
  import opened Wrappers
  import opened Text

  newtype CodeUnit = x: int | 0 <= x < 0x1_0000

  type Utf16 = seq<CodeUnit>

  const NEWLINE: CodeUnit := 0x0A
  const DOUBLE_QUOTE: CodeUnit := 0x22
  const DOLLAR: CodeUnit := 0x24
  const SINGLE_QUOTE: CodeUnit := 0x27
  const DASH: CodeUnit := 0x2D
  const SEMICOLON: CodeUnit := 0x3B

  datatype Mode = Normal | InSingle | InDouble | InLineComment | InDollar(tag: Utf16)

  /** `[A-Za-z0-9_]`. */
  predicate IsWord(c: CodeUnit) {
    0x41 <= c <= 0x5A || 0x61 <= c <= 0x7A || 0x30 <= c <= 0x39 || c == 0x5F
  }

  function WordRun(s: Utf16): (n: nat)
    ensures n <= |s|
    ensures forall i :: 0 <= i < n ==> IsWord(s[i])
    ensures n < |s| ==> !IsWord(s[n])
  {
    if s != [] && IsWord(s[0]) then 1 + WordRun(s[1..]) else 0
  }

  /** `/^\$[A-Za-z0-9_]*\$/`. */
  function TagAt(s: Utf16): (r: Option<Utf16>)
    ensures r.Some? ==> IsTag(r.value) && r.value <= s
  {
    if s == [] || s[0] != DOLLAR then None
    else
      var n := 1 + WordRun(s[1..]);
      if n < |s| && s[n] == DOLLAR then Some(s[..n + 1]) else None
  }

  predicate IsTag(tag: Utf16) {
    && |tag| >= 2 && tag[0] == DOLLAR
    && forall i :: 0 <= i < |tag| ==> IsWord(tag[i]) || tag[i] == DOLLAR
  }

  predicate ProperMode(mode: Mode) {
    mode.InDollar? ==> IsTag(mode.tag)
  }

  /** What one turn of the scanner does: split here, or take some code units into a mode. */
  datatype Turn = Cut | Take(length: nat, mode: Mode)

  function TurnAt(mode: Mode, rest: Utf16): (t: Turn)
    requires rest != [] && ProperMode(mode)
    ensures t.Take? ==> 1 <= t.length <= |rest| && ProperMode(t.mode)
    ensures t.Cut? ==> mode.Normal? && rest[0] == SEMICOLON
  {
    var ch := rest[0];
    match mode
    case InLineComment => Take(1, if ch == NEWLINE then Normal else mode)
    case InDollar(tag) => if tag <= rest then Take(|tag|, Normal) else Take(1, mode)
    case InSingle => Take(1, if ch == SINGLE_QUOTE then Normal else mode)
    case InDouble => Take(1, if ch == DOUBLE_QUOTE then Normal else mode)
    case Normal =>
      if ch == DASH && |rest| > 1 && rest[1] == DASH then Take(1, InLineComment)
      else if ch == SINGLE_QUOTE then Take(1, InSingle)
      else if ch == DOUBLE_QUOTE then Take(1, InDouble)
      else if TagAt(rest).Some? then Take(|TagAt(rest).value|, InDollar(TagAt(rest).value))
      else if ch == SEMICOLON then Cut
      else Take(1, Normal)
  }

  /** The raw pieces, the unfinished one last; `current` is what the open piece holds so far. */
  function Pieces(mode: Mode, rest: Utf16, current: Utf16): (r: seq<Utf16>)
    requires ProperMode(mode)
    ensures r != []
    decreases |rest|
  {
    if rest == [] then [current]
    else
      match TurnAt(mode, rest)
      case Cut => [current] + Pieces(Normal, rest[1..], [])
      case Take(n, next) => Pieces(next, rest[n..], current + rest[..n])
  }

  function RawPieces(sql: Utf16): (r: seq<Utf16>)
    ensures r != []
  {
    Pieces(Normal, sql, [])
  }

  /** Trimmed pieces, empty ones dropped. */
  function Statements(pieces: seq<Utf16>, blank: CodeUnit -> bool): seq<Utf16> {
    if pieces == [] then []
    else
      var first := TrimBy(pieces[0], blank);
      (if first == [] then [] else [first]) + Statements(pieces[1..], blank)
  }

  function SplitStatements(sql: Utf16, blank: CodeUnit -> bool): seq<Utf16> {
    Statements(RawPieces(sql), blank)
  }

  // ---------- conservation ----------

  lemma {:induction false} PiecesConserve(mode: Mode, rest: Utf16, current: Utf16)
    requires ProperMode(mode)
    ensures Join(Pieces(mode, rest, current), [SEMICOLON]) == current + rest
    decreases |rest|
  {
    hide Join, TurnAt, ProperMode, Pieces;
    if rest == [] {
      NothingLeft(mode, current);
      JoinOne(current, [SEMICOLON]);
      assert current + rest == current;
    } else {
      var t := TurnAt(mode, rest);
      PiecesTurn(mode, rest, current);
      if t.Cut? {
        var (more, tail) := (Pieces(Normal, rest[1..], []), rest[1..]);
        NormalIsProper();
        PiecesConserve(Normal, tail, []);
        JoinCons(current, more, [SEMICOLON]);
        assert [] + tail == tail && rest == [SEMICOLON] + tail;
        Assoc(current, [SEMICOLON], tail);
      } else {
        var (head, tail) := (rest[..t.length], rest[t.length..]);
        PiecesConserve(t.mode, tail, current + head);
        assert rest == head + tail;
        Assoc(current, head, tail);
      }
    }
  }

  lemma NormalIsProper()
    ensures ProperMode(Normal)
  {
  }

  /** No text is lost or invented: the raw pieces, rejoined, are the script. */
  lemma SplittingConserves(sql: Utf16)
    ensures Join(RawPieces(sql), [SEMICOLON]) == sql
  {
    PiecesConserve(Normal, sql, []);
    assert [] + sql == sql;
  }

  // ---------- splits exactly at top-level semicolons ----------

  /** The mode after scanning `s`, or nothing if a cut happens on the way. */
  function RunOver(mode: Mode, s: Utf16): (r: Option<Mode>)
    requires ProperMode(mode)
    ensures r.Some? ==> ProperMode(r.value)
    decreases |s|
  {
    if s == [] then Some(mode)
    else
      match TurnAt(mode, s)
      case Cut => None
      case Take(n, next) => RunOver(next, s[n..])
  }

  /** A code unit no lookahead of the scanner can run across. */
  predicate Breaks(c: CodeUnit) {
    c != DASH && c != DOLLAR && !IsWord(c)
  }

  predicate StartsApart(s: Utf16) {
    s == [] || Breaks(s[0])
  }

  lemma {:induction false} WordRunLocal(p: Utf16, q: Utf16)
    requires StartsApart(q)
    ensures WordRun(p + q) == WordRun(p)
  {
    if p == [] {
      assert p + q == q;
    } else {
      assert (p + q)[1..] == p[1..] + q;
      WordRunLocal(p[1..], q);
    }
  }

  lemma TagLocal(p: Utf16, q: Utf16)
    requires StartsApart(q) && p != []
    ensures TagAt(p + q) == TagAt(p)
  {
    assert (p + q)[1..] == p[1..] + q;
    WordRunLocal(p[1..], q);
    var n := 1 + WordRun(p[1..]);
    if n < |p| {
      assert (p + q)[..n + 1] == p[..n + 1];
    }
  }

  lemma TagPrefixLocal(tag: Utf16, p: Utf16, q: Utf16)
    requires IsTag(tag) && StartsApart(q)
    ensures tag <= p + q <==> tag <= p
  {
    if |tag| <= |p| {
      assert (p + q)[..|tag|] == p[..|tag|];
    } else if q != [] {
      assert (p + q)[|p|] == q[0];
    }
  }

  /** A turn inside `p` does not see what stands apart after it. */
  lemma TurnLocal(mode: Mode, p: Utf16, q: Utf16)
    requires ProperMode(mode) && p != [] && StartsApart(q)
    ensures TurnAt(mode, p + q) == TurnAt(mode, p)
  {
    hide TagAt, IsTag;
    TagLocal(p, q);
    if mode.InDollar? {
      TagPrefixLocal(mode.tag, p, q);
    }
  }

  lemma {:induction false} RunConcat(mode: Mode, p: Utf16, q: Utf16)
    requires ProperMode(mode) && StartsApart(q)
    ensures RunOver(mode, p + q)
         == if RunOver(mode, p).None? then None else RunOver(RunOver(mode, p).value, q)
    decreases |p|
  {
    hide TurnAt, ProperMode;
    if p == [] {
      assert p + q == q;
    } else {
      TurnLocal(mode, p, q);
      var t := TurnAt(mode, p);
      if t.Take? {
        assert (p + q)[t.length..] == p[t.length..] + q;
        RunConcat(t.mode, p[t.length..], q);
      }
    }
  }

  /** Text scanned without a cut stays in one piece. */
  lemma {:induction false} UncutIsOnePiece(mode: Mode, p: Utf16, current: Utf16)
    requires ProperMode(mode) && RunOver(mode, p).Some?
    ensures Pieces(mode, p, current) == [current + p]
    decreases |p|
  {
    hide TurnAt, ProperMode;
    if p == [] {
      assert current + p == current;
    } else {
      var t := TurnAt(mode, p);
      UncutIsOnePiece(t.mode, p[t.length..], current + p[..t.length]);
      assert current + p[..t.length] + p[t.length..] == current + p;
    }
  }

  /** A semicolon met in normal mode ends the piece. */
  lemma {:induction false} CutAfter(mode: Mode, p: Utf16, rest: Utf16, current: Utf16)
    requires ProperMode(mode) && RunOver(mode, p) == Some(Normal)
    ensures Pieces(mode, p + ([SEMICOLON] + rest), current) == [current + p] + Pieces(Normal, rest, [])
    decreases |p|
  {
    hide TurnAt, ProperMode;
    var q := [SEMICOLON] + rest;
    if p == [] {
      assert p + q == q && q[1..] == rest && current + p == current;
      SemicolonCuts(rest);
    } else {
      TurnLocal(mode, p, q);
      var t := TurnAt(mode, p);
      assert (p + q)[t.length..] == p[t.length..] + q && (p + q)[..t.length] == p[..t.length];
      CutAfter(t.mode, p[t.length..], rest, current + p[..t.length]);
      assert current + p[..t.length] + p[t.length..] == current + p;
    }
  }

  lemma SemicolonCuts(rest: Utf16)
    ensures TurnAt(Normal, [SEMICOLON] + rest) == Cut
  {
  }

  /** Pieces as a scanner leaves them: none holds a cut, and each but the last ends in normal mode. */
  ghost predicate Separated(pieces: seq<Utf16>) {
    && pieces != []
    && (forall i :: 0 <= i < |pieces| ==> RunOver(Normal, pieces[i]).Some?)
    && (forall i :: 0 <= i < |pieces| - 1 ==> RunOver(Normal, pieces[i]) == Some(Normal))
  }

  /** Scanning splits every join of separated pieces at exactly its own separators. */
  lemma {:induction false} SeparatedSplitsBack(pieces: seq<Utf16>)
    requires Separated(pieces)
    ensures RawPieces(Join(pieces, [SEMICOLON])) == pieces
    decreases |pieces|
  {
    hide Pieces;
    if |pieces| == 1 {
      UncutIsOnePiece(Normal, pieces[0], []);
      assert [] + pieces[0] == pieces[0];
    } else {
      SeparatedSplitsBack(pieces[1..]);
      var rest := Join(pieces[1..], [SEMICOLON]);
      assert Join(pieces, [SEMICOLON]) == pieces[0] + ([SEMICOLON] + rest);
      CutAfter(Normal, pieces[0], rest, []);
      assert [] + pieces[0] == pieces[0];
      assert pieces == [pieces[0]] + pieces[1..];
    }
  }

  /** How far the open piece runs from here, given the mode it is in. */
  lemma {:induction false} FirstPiece(mode: Mode, rest: Utf16, current: Utf16) returns (n: nat)
    requires ProperMode(mode)
    ensures n <= |rest| && RunOver(mode, rest[..n]).Some?
    ensures n == |rest| ==> Pieces(mode, rest, current) == [current + rest]
    ensures n < |rest| ==> rest[n] == SEMICOLON && RunOver(mode, rest[..n]) == Some(Normal)
                           && Pieces(mode, rest, current) == [current + rest[..n]] + RawPieces(rest[n + 1..])
    decreases |rest|
  {
    hide TurnAt, ProperMode, RunOver, Pieces;
    NormalIsProper();
    if rest == [] {
      n := 0;
      NothingLeft(mode, current);
      assert current + rest == current && rest[..0] == [];
    } else {
      var t := TurnAt(mode, rest);
      PiecesTurn(mode, rest, current);
      if t.Cut? {
        n := 0;
        NothingLeft(mode, current);
        assert rest[..0] == [] && current + rest[..0] == current;
      } else {
        var (head, tail) := (rest[..t.length], rest[t.length..]);
        var m := FirstPiece(t.mode, tail, current + head);
        n := t.length + m;
        assert rest == head + tail && rest[..n] == head + tail[..m];
        Assoc(current, head, tail[..m]);
        Assoc(current, head, tail);
        if n < |rest| {
          assert rest[n] == tail[m] && rest[n + 1..] == tail[m + 1..];
        }
        SameFirstTurn(mode, rest, n);
        RunTurn(mode, rest[..n]);
        assert rest[..n][t.length..] == tail[..m];
      }
    }
  }

  lemma NothingLeft(mode: Mode, current: Utf16)
    requires ProperMode(mode)
    ensures Pieces(mode, [], current) == [current] && RunOver(mode, []) == Some(mode)
  {
  }

  lemma PiecesTurn(mode: Mode, rest: Utf16, current: Utf16)
    requires ProperMode(mode) && rest != []
    ensures TurnAt(mode, rest).Cut? ==> Pieces(mode, rest, current) == [current] + RawPieces(rest[1..])
    ensures TurnAt(mode, rest).Take? ==>
              Pieces(mode, rest, current)
              == Pieces(TurnAt(mode, rest).mode, rest[TurnAt(mode, rest).length..], current + rest[..TurnAt(mode, rest).length])
  {
    hide TurnAt;
  }

  lemma RunTurn(mode: Mode, s: Utf16)
    requires ProperMode(mode) && s != [] && TurnAt(mode, s).Take?
    ensures RunOver(mode, s) == RunOver(TurnAt(mode, s).mode, s[TurnAt(mode, s).length..])
  {
  }

  /** Cutting the text off at a semicolon or its end does not change its first turn. */
  lemma SameFirstTurn(mode: Mode, rest: Utf16, n: nat)
    requires ProperMode(mode) && rest != [] && TurnAt(mode, rest).Take? && TurnAt(mode, rest).length <= n <= |rest|
    requires n < |rest| ==> rest[n] == SEMICOLON
    ensures TurnAt(mode, rest[..n]) == TurnAt(mode, rest)
  {
    hide TurnAt, ProperMode;
    assert rest == rest[..n] + rest[n..];
    TurnLocal(mode, rest[..n], rest[n..]);
  }

  /** What the splitter returns is separated, so it splits nowhere else and nowhere too little. */
  lemma {:induction false} RawPiecesAreSeparated(sql: Utf16)
    ensures Separated(RawPieces(sql))
    decreases |sql|
  {
    hide Pieces;
    var n := FirstPiece(Normal, sql, []);
    assert [] + sql == sql;
    if n < |sql| {
      assert [] + sql[..n] == sql[..n];
      RawPiecesAreSeparated(sql[n + 1..]);
    } else {
      assert sql[..n] == sql;
    }
  }

  // ---------- splitting what was split ----------

  /** A blank test the round trip needs: newline is blank, nothing the scanner acts on is. */
  predicate ProperBlank(blank: CodeUnit -> bool) {
    && blank(NEWLINE)
    && !blank(DASH) && !blank(DOLLAR) && !blank(SINGLE_QUOTE) && !blank(DOUBLE_QUOTE) && !blank(SEMICOLON)
    && forall c: CodeUnit :: IsWord(c) ==> !blank(c)
  }

  /** Blanks alone never leave a quote or a dollar body. */
  lemma {:induction false} BlanksStayInside(mode: Mode, s: Utf16, blank: CodeUnit -> bool)
    requires ProperMode(mode) && ProperBlank(blank) && AllBlank(s, blank)
    requires mode.InSingle? || mode.InDouble? || mode.InDollar?
    ensures RunOver(mode, s) == Some(mode)
  {
    if s != [] {
      assert TurnAt(mode, s) == Take(1, mode);
      BlanksStayInside(mode, s[1..], blank);
    }
  }

  /** A trimmed piece followed by a newline still holds no cut, and ends normal if the piece did. */
  lemma TrimmedPiece(piece: Utf16, blank: CodeUnit -> bool)
    requires ProperBlank(blank) && RunOver(Normal, piece).Some?
    ensures var t := TrimBy(piece, blank);
            && RunOver(Normal, t).Some?
            && (RunOver(Normal, piece) == Some(Normal) ==> RunOver(Normal, t + [NEWLINE]) == Some(Normal))
  {
    hide RunOver, TrimBy, ProperBlank, AllBlank, Trimmed, ProperMode;
    NewlineIsApart();
    var t := TrimBy(piece, blank);
    var left, right := TrimDecomposes(piece, blank);
    assert piece == left + (t + right);
    BlanksApart(right, blank);
    LeadingBlanks(left, t + right, blank);
    RunConcat(Normal, t, right);
    var m := RunOver(Normal, t).value;
    RunConcat(Normal, t, [NEWLINE]);
    if m.Normal? || m.InLineComment? {
      NewlineTurn(m);
    } else {
      BlanksStayInside(m, right, blank);
    }
  }

  lemma NewlineIsApart()
    ensures StartsApart([NEWLINE])
    ensures ProperMode(Normal)
  {
  }

  lemma NewlineTurn(mode: Mode)
    requires mode.Normal? || mode.InLineComment?
    ensures RunOver(mode, [NEWLINE]) == Some(Normal)
  {
    var one := [NEWLINE];
    assert one[1..] == [];
    assert TurnAt(mode, one) == Take(1, Normal);
  }

  lemma BlanksApart(s: Utf16, blank: CodeUnit -> bool)
    requires ProperBlank(blank) && AllBlank(s, blank)
    ensures StartsApart(s)
  {
  }

  /** Leading blanks are scanned one by one in normal mode, whatever follows. */
  lemma {:induction false} LeadingBlanks(left: Utf16, rest: Utf16, blank: CodeUnit -> bool)
    requires ProperBlank(blank) && AllBlank(left, blank)
    ensures RunOver(Normal, left + rest) == RunOver(Normal, rest)
  {
    if left == [] {
      assert left + rest == rest;
    } else {
      assert (left + rest)[1..] == left[1..] + rest;
      assert TurnAt(Normal, left + rest) == Take(1, Normal);
      LeadingBlanks(left[1..], rest, blank);
    }
  }
}
