/** The two ports of the statement splitter, and what splitting and rejoining a script keeps. */
module SqlSplitter {
  import opened Wrappers
  import opened Text
  import opened StatementLexer

  /** What JavaScript's `String.prototype.trim` removes (ECMAScript, WhiteSpace and LineTerminator). */
  predicate JsBlank(c: CodeUnit) {
    CommonBlank(c) || c == 0xFEFF
  }

  /** What .NET's `String.Trim` removes (`Char.IsWhiteSpace`). */
  predicate DotNetBlank(c: CodeUnit) {
    CommonBlank(c) || c == 0x85
  }

  predicate CommonBlank(c: CodeUnit) {
    || 0x09 <= c <= 0x0D
    || c in {0x20, 0xA0, 0x1680, 0x2028, 0x2029, 0x202F, 0x205F, 0x3000}
    || 0x2000 <= c <= 0x200A
  }

  // ---------- the scanner's variables ----------

  /** At most one of the four mode variables is set. */
  predicate Exclusive(inSingle: bool, inDouble: bool, inLineComment: bool, dollarTag: Option<Utf16>) {
    && !(inSingle && (inDouble || inLineComment || dollarTag.Some?))
    && !(inDouble && (inLineComment || dollarTag.Some?))
    && !(inLineComment && dollarTag.Some?)
    && (dollarTag.Some? ==> IsTag(dollarTag.value))
  }

  function ModeOf(inSingle: bool, inDouble: bool, inLineComment: bool, dollarTag: Option<Utf16>): (m: Mode)
    requires Exclusive(inSingle, inDouble, inLineComment, dollarTag)
    ensures ProperMode(m)
  {
    if inLineComment then InLineComment
    else if dollarTag.Some? then InDollar(dollarTag.value)
    else if inSingle then InSingle
    else if inDouble then InDouble
    else Normal
  }

  /** One turn of the scanner on the whole script: what is left to cut, from what is already cut. */
  lemma TurnStep(mode: Mode, sql: Utf16, i: nat, current: Utf16, statements: seq<Utf16>)
    requires ProperMode(mode) && i < |sql|
    ensures match TurnAt(mode, sql[i..])
            case Cut => statements + Pieces(mode, sql[i..], current) == (statements + [current]) + Pieces(Normal, sql[i + 1..], [])
            case Take(n, next) =>
              && i + n <= |sql|
              && statements + Pieces(mode, sql[i..], current) == statements + Pieces(next, sql[i + n..], current + sql[i..i + n])
  {
    hide TurnAt;
    var rest := sql[i..];
    var t := TurnAt(mode, rest);
    if t.Cut? {
      assert rest[1..] == sql[i + 1..];
    } else {
      assert rest[t.length..] == sql[i + t.length..] && rest[..t.length] == sql[i..i + t.length];
    }
  }

  lemma {:induction false} StatementsSnoc(pieces: seq<Utf16>, last: Utf16, blank: CodeUnit -> bool)
    ensures Statements(pieces + [last], blank)
         == Statements(pieces, blank) + (if TrimBy(last, blank) == [] then [] else [TrimBy(last, blank)])
  {
    if pieces == [] {
      assert pieces + [last] == [last];
    } else {
      assert (pieces + [last])[1..] == pieces[1..] + [last];
      StatementsSnoc(pieces[1..], last, blank);
    }
  }

  /** The map and filter both ports end with. */
  method TrimmedStatements(pieces: seq<Utf16>, blank: CodeUnit -> bool) returns (statements: seq<Utf16>)
    ensures statements == Statements(pieces, blank)
  {
    statements := [];
    for i := 0 to |pieces|
      invariant statements == Statements(pieces[..i], blank)
    {
      assert pieces[..i + 1] == pieces[..i] + [pieces[i]];
      StatementsSnoc(pieces[..i], pieces[i], blank);
      var s := TrimBy(pieces[i], blank);
      if s != [] {
        statements := statements + [s];
      }
    }
    assert pieces[..|pieces|] == pieces;
  }

  /** `splitSqlStatements` of the TypeScript harness. */
  method SplitTypeScript(sql: Utf16) returns (result: seq<Utf16>)
    ensures result == SplitStatements(sql, JsBlank)
  {
    hide Pieces, TurnAt, Statements, TagAt, ProperMode, RawPieces, TrimBy, SplitStatements;
    NothingCut(sql);
    var statements: seq<Utf16> := [];
    var current: Utf16 := [];
    var inSingle, inDouble, inLineComment := false, false, false;
    var dollarTag: Option<Utf16> := None;
    var i := 0;
    while i < |sql|
      invariant 0 <= i <= |sql|
      invariant Exclusive(inSingle, inDouble, inLineComment, dollarTag)
      invariant statements + Pieces(ModeOf(inSingle, inDouble, inLineComment, dollarTag), sql[i..], current) == RawPieces(sql)
      decreases |sql| - i
    {
      var ch := sql[i];
      assert sql[i..i + 1] == [ch];
      TurnStep(ModeOf(inSingle, inDouble, inLineComment, dollarTag), sql, i, current, statements);
      if inLineComment {
        CommentTurn(sql[i..]);
        current := current + [ch];
        if ch == NEWLINE {
          inLineComment := false;
        }
        i := i + 1;
        continue;
      }
      if dollarTag.Some? {
        DollarTurn(dollarTag.value, sql[i..]);
        current := current + [ch];
        if ch == DOLLAR && dollarTag.value <= sql[i..] {
          assert current[..|current| - 1] + sql[i..i + |dollarTag.value|] == current + dollarTag.value[1..];
          assert current[..|current| - 1] + [ch] == current;
          current := current + dollarTag.value[1..];
          i := i + (|dollarTag.value| - 1);
          dollarTag := None;
        }
        i := i + 1;
        continue;
      }
      if inSingle {
        QuoteTurn(sql[i..]);
        current := current + [ch];
        if ch == SINGLE_QUOTE {
          inSingle := false;
        }
        i := i + 1;
        continue;
      }
      if inDouble {
        QuoteTurn(sql[i..]);
        current := current + [ch];
        if ch == DOUBLE_QUOTE {
          inDouble := false;
        }
        i := i + 1;
        continue;
      }
      NormalTurn(sql[i..]);
      if ch == DASH && i + 1 < |sql| && sql[i + 1] == DASH {
        inLineComment := true;
        current := current + [ch];
        i := i + 1;
        continue;
      }
      if ch == SINGLE_QUOTE {
        inSingle := true;
        current := current + [ch];
        i := i + 1;
        continue;
      }
      if ch == DOUBLE_QUOTE {
        inDouble := true;
        current := current + [ch];
        i := i + 1;
        continue;
      }
      if ch == DOLLAR {
        var tag := TagAt(sql[i..]);
        if tag.Some? {
          dollarTag := tag;
          assert tag.value == sql[i..i + |tag.value|];
          current := current + tag.value;
          i := i + (|tag.value| - 1);
          i := i + 1;
          continue;
        }
      }
      if ch == SEMICOLON {
        statements := statements + [current];
        current := [];
        i := i + 1;
        continue;
      }
      current := current + [ch];
      i := i + 1;
    }
    LastPiece(ModeOf(inSingle, inDouble, inLineComment, dollarTag), sql[i..], current);
    if TrimBy(current, JsBlank) != [] {
      statements := statements + [current];
    } else {
      StatementsSnoc(statements, current, JsBlank);
    }
    SplitIs(sql, JsBlank);
    result := TrimmedStatements(statements, JsBlank);
  }

  /** `SplitSqlStatements` of the C# harness. */
  method SplitCSharp(sql: Utf16) returns (result: seq<Utf16>)
    ensures result == SplitStatements(sql, DotNetBlank)
  {
    hide Pieces, TurnAt, Statements, TagAt, ProperMode, RawPieces, TrimBy, SplitStatements;
    NothingCut(sql);
    var statements: seq<Utf16> := [];
    var current: Utf16 := [];
    var inSingle, inDouble, inLineComment := false, false, false;
    var dollarTag: Option<Utf16> := None;
    var i := 0;
    while i < |sql|
      invariant 0 <= i <= |sql|
      invariant Exclusive(inSingle, inDouble, inLineComment, dollarTag)
      invariant statements + Pieces(ModeOf(inSingle, inDouble, inLineComment, dollarTag), sql[i..], current) == RawPieces(sql)
      decreases |sql| - i
    {
      var ch := sql[i];
      assert sql[i..i + 1] == [ch];
      TurnStep(ModeOf(inSingle, inDouble, inLineComment, dollarTag), sql, i, current, statements);
      if inLineComment {
        CommentTurn(sql[i..]);
        current := current + [ch];
        if ch == NEWLINE {
          inLineComment := false;
        }
        i := i + 1;
        continue;
      }
      if dollarTag.Some? {
        DollarTurn(dollarTag.value, sql[i..]);
        current := current + [ch];
        if ch == DOLLAR && i + |dollarTag.value| <= |sql| && sql[i..i + |dollarTag.value|] == dollarTag.value {
          assert current[..|current| - 1] + sql[i..i + |dollarTag.value|] == current + dollarTag.value[1..];
          assert current[..|current| - 1] + [ch] == current;
          current := current + dollarTag.value[1..];
          i := i + |dollarTag.value|;
          dollarTag := None;
          continue;
        }
        i := i + 1;
        continue;
      }
      if inSingle {
        QuoteTurn(sql[i..]);
        current := current + [ch];
        if ch == SINGLE_QUOTE {
          inSingle := false;
        }
        i := i + 1;
        continue;
      }
      if inDouble {
        QuoteTurn(sql[i..]);
        current := current + [ch];
        if ch == DOUBLE_QUOTE {
          inDouble := false;
        }
        i := i + 1;
        continue;
      }
      NormalTurn(sql[i..]);
      if ch == SINGLE_QUOTE {
        inSingle := true;
        current := current + [ch];
        i := i + 1;
        continue;
      }
      if ch == DOUBLE_QUOTE {
        inDouble := true;
        current := current + [ch];
        i := i + 1;
        continue;
      }
      if ch == DASH && i + 1 < |sql| && sql[i + 1] == DASH {
        inLineComment := true;
        current := current + [ch];
        i := i + 1;
        continue;
      }
      if ch == DOLLAR {
        var tag := TagAt(sql[i..]);
        if tag.Some? {
          dollarTag := tag;
          assert tag.value == sql[i..i + |tag.value|];
          current := current + tag.value;
          i := i + |tag.value|;
          continue;
        }
      }
      if ch == SEMICOLON {
        statements := statements + [current];
        current := [];
        i := i + 1;
        continue;
      }
      current := current + [ch];
      i := i + 1;
    }
    LastPiece(ModeOf(inSingle, inDouble, inLineComment, dollarTag), sql[i..], current);
    if TrimBy(current, DotNetBlank) != [] {
      statements := statements + [current];
    } else {
      StatementsSnoc(statements, current, DotNetBlank);
    }
    SplitIs(sql, DotNetBlank);
    result := TrimmedStatements(statements, DotNetBlank);
  }

  // ---------- the scanner's turns, mode by mode ----------

  lemma CommentTurn(rest: Utf16)
    requires rest != []
    ensures TurnAt(InLineComment, rest) == Take(1, if rest[0] == NEWLINE then Normal else InLineComment)
  {
  }

  lemma DollarTurn(tag: Utf16, rest: Utf16)
    requires rest != [] && IsTag(tag)
    ensures TurnAt(InDollar(tag), rest)
         == if rest[0] == DOLLAR && tag <= rest then Take(|tag|, Normal) else Take(1, InDollar(tag))
  {
  }

  lemma QuoteTurn(rest: Utf16)
    requires rest != []
    ensures TurnAt(InSingle, rest) == Take(1, if rest[0] == SINGLE_QUOTE then Normal else InSingle)
    ensures TurnAt(InDouble, rest) == Take(1, if rest[0] == DOUBLE_QUOTE then Normal else InDouble)
  {
  }

  lemma NormalTurn(rest: Utf16)
    requires rest != []
    ensures var t := TurnAt(Normal, rest);
            var ch := rest[0];
            if ch == DASH then t == Take(1, if |rest| > 1 && rest[1] == DASH then InLineComment else Normal)
            else if ch == SINGLE_QUOTE then t == Take(1, InSingle)
            else if ch == DOUBLE_QUOTE then t == Take(1, InDouble)
            else if ch == DOLLAR then
              t == if TagAt(rest).Some? then Take(|TagAt(rest).value|, InDollar(TagAt(rest).value)) else Take(1, Normal)
            else if ch == SEMICOLON then t == Cut
            else t == Take(1, Normal)
  {
  }

  lemma SplitIs(sql: Utf16, blank: CodeUnit -> bool)
    ensures SplitStatements(sql, blank) == Statements(RawPieces(sql), blank)
  {
  }

  lemma NothingCut(sql: Utf16)
    ensures ModeOf(false, false, false, None) == Normal && [] + Pieces(Normal, sql[0..], []) == RawPieces(sql)
  {
    assert sql[0..] == sql;
  }

  lemma LastPiece(mode: Mode, rest: Utf16, current: Utf16)
    requires ProperMode(mode) && rest == []
    ensures Pieces(mode, rest, current) == [current]
  {
  }
}
