/** What the splitter guarantees over whole scripts: rejoining, and agreement of its two ports. */
module SplitterLaws {
  import opened Wrappers
  import opened Text
  import opened StatementLexer
  import opened SqlSplitter

  const SEPARATOR: Utf16 := [NEWLINE, SEMICOLON, NEWLINE]

  // ---------- split, join, split ----------

  /** Statements that can be joined again: none holds a cut, and a newline ends any but the last. */
  ghost predicate Rejoinable(ts: seq<Utf16>, blank: CodeUnit -> bool) {
    && (forall i :: 0 <= i < |ts| ==> ts[i] != [] && Trimmed(ts[i], blank) && RunOver(Normal, ts[i]).Some?)
    && (forall i :: 0 <= i < |ts| - 1 ==> RunOver(Normal, ts[i] + [NEWLINE]) == Some(Normal))
  }

  lemma TrimResultIsTrimmed(s: Utf16, blank: CodeUnit -> bool)
    ensures Trimmed(TrimBy(s, blank), blank)
  {
    var left, right := TrimDecomposes(s, blank);
  }

  lemma {:induction false} StatementsAreRejoinable(pieces: seq<Utf16>, blank: CodeUnit -> bool)
    requires ProperBlank(blank) && Separated(pieces)
    ensures Rejoinable(Statements(pieces, blank), blank)
    decreases |pieces|
  {
    hide RunOver, TrimBy, Trimmed, ProperBlank;
    var t := TrimBy(pieces[0], blank);
    TrimmedPiece(pieces[0], blank);
    TrimResultIsTrimmed(pieces[0], blank);
    if |pieces| == 1 {
      assert Statements(pieces[1..], blank) == [];
    } else {
      StatementsAreRejoinable(pieces[1..], blank);
    }
  }

  /** The raw pieces of the rejoined script: each statement with the newlines the separator lends it. */
  function Respaced(ts: seq<Utf16>, before: Utf16): seq<Utf16>
    requires ts != []
  {
    if |ts| == 1 then [before + ts[0]]
    else [before + (ts[0] + [NEWLINE])] + Respaced(ts[1..], [NEWLINE])
  }

  lemma {:induction false} RejoinedShape(ts: seq<Utf16>, before: Utf16)
    requires ts != []
    ensures before + Join(ts, SEPARATOR) == Join(Respaced(ts, before), [SEMICOLON])
    decreases |ts|
  {
    if |ts| > 1 {
      RejoinedShape(ts[1..], [NEWLINE]);
      var (rest, tail) := (Join(ts[1..], SEPARATOR), Respaced(ts[1..], [NEWLINE]));
      JoinCons(before + (ts[0] + [NEWLINE]), tail, [SEMICOLON]);
      assert before + (ts[0] + SEPARATOR + rest) == before + (ts[0] + [NEWLINE]) + [SEMICOLON] + ([NEWLINE] + rest);
    }
  }

  lemma PaddedRun(before: Utf16, t: Utf16, blank: CodeUnit -> bool)
    requires ProperBlank(blank) && before in {[], [NEWLINE]}
    ensures RunOver(Normal, before + t) == RunOver(Normal, t)
  {
    LeadingBlanks(before, t, blank);
  }

  lemma PaddedTrim(before: Utf16, t: Utf16, after: Utf16, blank: CodeUnit -> bool)
    requires ProperBlank(blank) && before in {[], [NEWLINE]} && after in {[], [NEWLINE]} && Trimmed(t, blank)
    ensures TrimBy(before + (t + after), blank) == t
  {
    hide TrimBy, Trimmed;
    TrimOfPadded(before, t, after, blank);
    Assoc(before, t, after);
  }

  /** Respaced statements are separated pieces, and trimming them gives the statements back. */
  lemma {:induction false} RespacedPieces(ts: seq<Utf16>, before: Utf16, blank: CodeUnit -> bool)
    requires ProperBlank(blank) && ts != [] && Rejoinable(ts, blank) && before in {[], [NEWLINE]}
    ensures Separated(Respaced(ts, before))
    ensures Statements(Respaced(ts, before), blank) == ts
    decreases |ts|
  {
    hide RunOver, TrimBy, Trimmed, ProperBlank;
    var t := ts[0];
    if |ts| == 1 {
      PaddedRun(before, t, blank);
      PaddedTrim(before, t, [], blank);
      assert t + [] == t;
      var one := Respaced(ts, before);
      assert Statements(one[1..], blank) == [];
    } else {
      RespacedPieces(ts[1..], [NEWLINE], blank);
      PaddedRun(before, t + [NEWLINE], blank);
      PaddedTrim(before, t, [NEWLINE], blank);
      var pieces := Respaced(ts, before);
      assert pieces[1..] == Respaced(ts[1..], [NEWLINE]);
      assert forall i :: 0 < i < |pieces| ==> pieces[i] == pieces[1..][i - 1];
      assert ts == [t] + ts[1..];
    }
  }

  /** Splitting the statements joined by `"\n;\n"` gives the same statements, for every script. */
  lemma SplitJoinSplit(sql: Utf16, blank: CodeUnit -> bool)
    requires ProperBlank(blank)
    ensures SplitStatements(Join(SplitStatements(sql, blank), SEPARATOR), blank) == SplitStatements(sql, blank)
  {
    hide RunOver, Pieces, ProperBlank, Separated, Rejoinable, RawPieces, Statements;
    var ts := SplitStatements(sql, blank);
    RawPiecesAreSeparated(sql);
    StatementsAreRejoinable(RawPieces(sql), blank);
    if ts == [] {
      NothingSplits(blank);
    } else {
      RejoinedShape(ts, []);
      assert [] + Join(ts, SEPARATOR) == Join(ts, SEPARATOR);
      RespacedPieces(ts, [], blank);
      SeparatedSplitsBack(Respaced(ts, []));
    }
  }

  lemma NothingSplits(blank: CodeUnit -> bool)
    ensures SplitStatements([], blank) == []
  {
    assert RawPieces([]) == [[]];
    var one: seq<Utf16> := [[]];
    assert Statements(one[1..], blank) == [];
  }

  /** Both ports trim in a way the round trip needs. */
  lemma BothTrimsAreProper()
    ensures ProperBlank(JsBlank) && ProperBlank(DotNetBlank)
  {
  }

  // ---------- the two ports ----------

  /** .NET trims what Unicode calls white space; JavaScript all of that but U+0085, and U+FEFF. */
  lemma TrimsAre(c: CodeUnit)
    requires c < 0xD800 || c >= 0xE000
    ensures DotNetBlank(c) <==> IsWhitespace(c as int as char)
    ensures JsBlank(c) <==> (IsWhitespace(c as int as char) && c != 0x85) || c == 0xFEFF
  {
  }

  predicate Odd(c: CodeUnit) {
    c == 0x85 || c == 0xFEFF
  }

  /** A piece both ports trim alike: under the blanks they share, nothing odd is left at its ends. */
  predicate TrimsAlike(piece: Utf16) {
    var core := TrimBy(piece, CommonBlank);
    core != [] ==> !Odd(core[0]) && !Odd(core[|core| - 1])
  }

  lemma AlikeTrims(piece: Utf16)
    requires TrimsAlike(piece)
    ensures TrimBy(piece, JsBlank) == TrimBy(piece, DotNetBlank)
  {
    hide TrimBy;
    var core := TrimBy(piece, CommonBlank);
    var left, right := TrimDecomposes(piece, CommonBlank);
    TrimOfPadded(left, core, right, JsBlank);
    TrimOfPadded(left, core, right, DotNetBlank);
  }

  /** A character one trim keeps at an end of the shared core is at that end of its result. */
  lemma KeptEnd(piece: Utf16, blank: CodeUnit -> bool)
    requires forall c: CodeUnit :: CommonBlank(c) ==> blank(c)
    ensures var core := TrimBy(piece, CommonBlank);
            var t := TrimBy(piece, blank);
            && (core != [] && !blank(core[0]) ==> t != [] && t[0] == core[0])
            && (core != [] && !blank(core[|core| - 1]) ==> t != [] && t[|t| - 1] == core[|core| - 1])
  {
    hide TrimBy, CommonBlank;
    var core := TrimBy(piece, CommonBlank);
    var left, right := TrimDecomposes(piece, CommonBlank);
    var l, r := TrimDecomposes(piece, blank);
    var t := TrimBy(piece, blank);
    if core != [] && !blank(core[0]) {
      assert piece[|left|] == core[0] && forall i :: 0 <= i < |left| ==> blank(piece[i]);
      FirstKept(piece, l, t, r, |left|, blank);
    }
    if core != [] && !blank(core[|core| - 1]) {
      var at := |left| + |core| - 1;
      assert piece[at] == core[|core| - 1];
      assert forall i :: at < i < |piece| ==> piece[i] == right[i - at - 1] && blank(piece[i]);
      LastKept(piece, l, t, r, at, blank);
    }
  }

  lemma FirstKept(s: Utf16, l: Utf16, t: Utf16, r: Utf16, at: nat, blank: CodeUnit -> bool)
    requires s == l + t + r && AllBlank(l, blank) && AllBlank(r, blank) && Trimmed(t, blank)
    requires at < |s| && !blank(s[at]) && forall i :: 0 <= i < at ==> blank(s[i])
    ensures t != [] && t[0] == s[at]
  {
    PaddingIsBlank(s, l, t, r, blank);
    assert |l| <= at < |l| + |t|;
    assert s[|l|] == t[0];
  }

  lemma LastKept(s: Utf16, l: Utf16, t: Utf16, r: Utf16, at: nat, blank: CodeUnit -> bool)
    requires s == l + t + r && AllBlank(l, blank) && AllBlank(r, blank) && Trimmed(t, blank)
    requires at < |s| && !blank(s[at]) && forall i :: at < i < |s| ==> blank(s[i])
    ensures t != [] && t[|t| - 1] == s[at]
  {
    PaddingIsBlank(s, l, t, r, blank);
    assert |l| <= at < |l| + |t|;
    assert s[|l| + |t| - 1] == t[|t| - 1];
  }

  lemma PaddingIsBlank(s: Utf16, l: Utf16, t: Utf16, r: Utf16, blank: CodeUnit -> bool)
    requires s == l + t + r && AllBlank(l, blank) && AllBlank(r, blank)
    ensures forall i :: 0 <= i < |s| && !blank(s[i]) ==> |l| <= i < |l| + |t|
  {
    forall i | 0 <= i < |l| || |l| + |t| <= i < |s| ensures blank(s[i]) {
      assert s[i] == if i < |l| then l[i] else r[i - |l| - |t|];
    }
  }

  /** An end no statement of this port can have. */
  lemma {:induction false} NoStatementEndsIn(pieces: seq<Utf16>, blank: CodeUnit -> bool)
    ensures forall t :: t in Statements(pieces, blank) ==> t != [] && !blank(t[0]) && !blank(t[|t| - 1])
  {
    hide Statements, TrimBy, Trimmed;
    NoStatements(blank);
    if pieces != [] {
      NoStatementEndsIn(pieces[1..], blank);
      FirstStatement(pieces, blank);
      TrimmedEnds(pieces[0], blank);
    }
  }

  lemma NoStatements(blank: CodeUnit -> bool)
    ensures Statements([], blank) == []
  {
  }

  /** Splitting off the first piece: its trimmed text, if any, then the statements of the rest. */
  lemma FirstStatement(pieces: seq<Utf16>, blank: CodeUnit -> bool)
    requires pieces != []
    ensures var first := TrimBy(pieces[0], blank);
            Statements(pieces, blank) == (if first == [] then [] else [first]) + Statements(pieces[1..], blank)
  {
  }

  lemma TrimmedEnds(piece: Utf16, blank: CodeUnit -> bool)
    ensures var t := TrimBy(piece, blank);
            t != [] ==> !blank(t[0]) && !blank(t[|t| - 1])
  {
    TrimResultIsTrimmed(piece, blank);
  }

  lemma {:induction false} PieceIsAStatement(pieces: seq<Utf16>, piece: Utf16, blank: CodeUnit -> bool)
    requires piece in pieces && TrimBy(piece, blank) != []
    ensures TrimBy(piece, blank) in Statements(pieces, blank)
  {
    hide Statements, TrimBy;
    FirstStatement(pieces, blank);
    if piece != pieces[0] {
      PieceIsAStatement(pieces[1..], piece, blank);
    }
  }

  lemma {:induction false} AlikeStatements(pieces: seq<Utf16>)
    requires forall p :: p in pieces ==> TrimsAlike(p)
    ensures Statements(pieces, JsBlank) == Statements(pieces, DotNetBlank)
  {
    hide TrimsAlike, TrimBy;
    if pieces != [] {
      AlikeTrims(pieces[0]);
      AlikeStatements(pieces[1..]);
    }
  }

  /** A piece with an odd end appears in one port's list with an end the other port never returns. */
  lemma OddPieceTellsApart(pieces: seq<Utf16>, piece: Utf16)
    requires piece in pieces && !TrimsAlike(piece)
    ensures Statements(pieces, JsBlank) != Statements(pieces, DotNetBlank)
  {
    hide TrimBy, Statements, CommonBlank;
    KeptEnd(piece, JsBlank);
    KeptEnd(piece, DotNetBlank);
    NoStatementEndsIn(pieces, JsBlank);
    NoStatementEndsIn(pieces, DotNetBlank);
    OddBlanks();
    var core := TrimBy(piece, CommonBlank);
    var odd := if Odd(core[0]) then core[0] else core[|core| - 1];
    if odd == 0x85 {
      PieceIsAStatement(pieces, piece, JsBlank);
    } else {
      PieceIsAStatement(pieces, piece, DotNetBlank);
    }
  }

  lemma OddBlanks()
    ensures !JsBlank(0x85) && DotNetBlank(0x85) && JsBlank(0xFEFF) && !DotNetBlank(0xFEFF)
  {
  }

  /**
   The TypeScript and C# splitters return the same list for a script exactly when no piece of it,
   once the blanks common to both languages are trimmed, starts or ends with U+0085 or U+FEFF.
   */
  lemma PortsAgreeIff(sql: Utf16)
    ensures SplitStatements(sql, JsBlank) == SplitStatements(sql, DotNetBlank)
            <==> forall p :: p in RawPieces(sql) ==> TrimsAlike(p)
  {
    hide TrimsAlike, Statements, RawPieces;
    if forall p :: p in RawPieces(sql) ==> TrimsAlike(p) {
      AlikeStatements(RawPieces(sql));
    } else {
      var p :| p in RawPieces(sql) && !TrimsAlike(p);
      OddPieceTellsApart(RawPieces(sql), p);
    }
  }

  /** A script that holds neither character is always split alike. */
  lemma PlainScriptsAgree(sql: Utf16)
    requires forall c :: c in sql ==> !Odd(c)
    ensures SplitStatements(sql, JsBlank) == SplitStatements(sql, DotNetBlank)
  {
    hide TrimsAlike, SplitStatements, RawPieces;
    SplittingConserves(sql);
    forall p | p in RawPieces(sql) ensures TrimsAlike(p) {
      PieceOfJoin(RawPieces(sql), p);
      var left, right := TrimDecomposes(p, CommonBlank);
      var core := TrimBy(p, CommonBlank);
      assert forall c :: c in core ==> c in p;
      PlainPieceTrimsAlike(p, core);
    }
    PortsAgreeIff(sql);
  }

  lemma PlainPieceTrimsAlike(p: Utf16, core: Utf16)
    requires core == TrimBy(p, CommonBlank) && forall c :: c in core ==> !Odd(c)
    ensures TrimsAlike(p)
  {
    hide TrimBy;
  }

  lemma {:induction false} PieceOfJoin(pieces: seq<Utf16>, p: Utf16)
    requires p in pieces
    ensures forall c :: c in p ==> c in Join(pieces, [SEMICOLON])
  {
    if p != pieces[0] {
      PieceOfJoin(pieces[1..], p);
      JoinCons(pieces[0], pieces[1..], [SEMICOLON]);
      assert pieces == [pieces[0]] + pieces[1..];
    } else if |pieces| > 1 {
      JoinCons(pieces[0], pieces[1..], [SEMICOLON]);
      assert pieces == [pieces[0]] + pieces[1..];
    }
  }

  /** A script the ports split differently: one line holding only a byte order mark. */
  lemma ByteOrderMarkDiffers()
    ensures SplitStatements([0xFEFF], JsBlank) != SplitStatements([0xFEFF], DotNetBlank)
  {
    hide TrimsAlike, SplitStatements, RawPieces, RunOver;
    var sql: Utf16 := [0xFEFF];
    MarkIsOnePiece();
    MarkTrimsDifferently();
    assert sql in RawPieces(sql);
    PortsAgreeIff(sql);
  }

  lemma MarkIsOnePiece()
    ensures RawPieces([0xFEFF]) == [[0xFEFF]]
  {
    hide Pieces;
    var sql: Utf16 := [0xFEFF];
    assert sql[1..] == [] && [] + sql == sql;
    assert TurnAt(Normal, sql) == Take(1, Normal);
    assert RunOver(Normal, sql) == Some(Normal);
    UncutIsOnePiece(Normal, sql, []);
  }

  lemma MarkTrimsDifferently()
    ensures !TrimsAlike([0xFEFF])
  {
    var sql: Utf16 := [0xFEFF];
    assert TrimStart(sql, CommonBlank) == sql && TrimEnd(sql, CommonBlank) == sql;
  }
}
