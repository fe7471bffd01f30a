/** Hosts that read the line ends of a source file before the characters of a literal. */
module HostNewlines {
  import opened Wrappers
  import opened Text
  import opened SqlLiterals

  /** A carriage return and newline read as a newline; with `lone`, a lone carriage return does too. */
  function ReadNewlines(lone: bool, s: string): (r: string)
    ensures |r| <= |s|
  {
    if s == "" then ""
    else if s[0] == '\r' && |s| > 1 && s[1] == '\n' then "\n" + ReadNewlines(lone, s[2..])
    else if s[0] == '\r' && lone then "\n" + ReadNewlines(lone, s[1..])
    else [s[0]] + ReadNewlines(lone, s[1..])
  }

  lemma NothingToRead(lone: bool)
    ensures ReadNewlines(lone, "") == ""
  {
  }

  lemma PairIsRead(lone: bool, after: string)
    ensures ReadNewlines(lone, "\r\n" + after) == "\n" + ReadNewlines(lone, after)
  {
    assert ("\r\n" + after)[2..] == after;
  }

  /** One or two characters that are no carriage return stay. */
  lemma OtherIsKept(lone: bool, unit: string, after: string)
    requires 1 <= |unit| <= 2 && '\r' !in unit
    ensures ReadNewlines(lone, unit + after) == unit + ReadNewlines(lone, after)
  {
    var s := unit + after;
    assert s[0] == unit[0] && s[1..] == unit[1..] + after;
    if |unit| == 2 {
      assert s[1..][0] == unit[1] && s[1..][1..] == after;
      assert unit == [unit[0]] + [unit[1]];
    } else {
      assert s[1..] == after;
    }
  }

  /** Reading line ends shows the same first character unless that ends a line. */
  lemma FirstRead(lone: bool, s: string)
    ensures ReadNewlines(lone, s) == "" <==> s == ""
    ensures s != "" ==> ReadNewlines(lone, s)[0] == s[0] || (s[0] == '\r' && ReadNewlines(lone, s)[0] == '\n')
  {
  }

  /** Line ends are kept exactly when there is nothing of that kind to read. */
  lemma {:induction false} NewlinesKeptIff(lone: bool, s: string)
    ensures ReadNewlines(lone, s) == s <==> !Contains(s, "\r\n") && (lone ==> '\r' !in s)
  {
    hide Contains;
    if s == "" {
      NoPair();
    } else {
      var tail := s[1..];
      assert s == [s[0]] + tail;
      ContainsShift(s, "\r\n");
      assert "\r\n" <= s <==> |s| > 1 && s[0] == '\r' && s[1] == '\n';
      if s[0] == '\r' && |s| > 1 && s[1] == '\n' {
        assert |ReadNewlines(lone, s)| <= |s| - 1;
      } else {
        NewlinesKeptIff(lone, tail);
        if s[0] == '\r' && lone {
          assert ReadNewlines(lone, s)[0] != s[0];
        }
      }
    }
  }

  lemma NoPair()
    ensures !Contains("", "\r\n")
  {
  }

  lemma PairHoldsReturn(s: string)
    ensures Contains(s, "\r\n") ==> '\r' in s
  {
    if Contains(s, "\r\n") {
      var i :| OccursAt(s, "\r\n", i);
      assert s[i..][0] == '\r';
      assert s[i] in s;
    }
  }

  /** Characters that end no line are neither added nor lost. */
  lemma {:induction false} OthersStay(lone: bool, s: string, c: char)
    requires c != '\r' && c != '\n'
    ensures c in ReadNewlines(lone, s) <==> c in s
  {
    if s != "" {
      assert s == [s[0]] + s[1..];
      if s[0] == '\r' && |s| > 1 && s[1] == '\n' {
        assert s == "\r\n" + s[2..];
        OthersStay(lone, s[2..], c);
      } else {
        OthersStay(lone, s[1..], c);
      }
    }
  }

  // ---------- carriage returns that stay ----------

  predicate LoneReturnAt(s: string, i: int) {
    0 <= i < |s| && s[i] == '\r' && (i == |s| - 1 || s[i + 1] != '\n')
  }

  /** A carriage return that no newline follows. */
  predicate HasLoneReturn(s: string) {
    exists i :: 0 <= i < |s| && LoneReturnAt(s, i)
  }

  lemma LoneReturnHead(s: string)
    ensures HasLoneReturn(s) <==> s != "" && (LoneReturnAt(s, 0) || HasLoneReturn(s[1..]))
  {
    if i :| LoneReturnAt(s, i) && i > 0 {
      assert LoneReturnAt(s[1..], i - 1);
    }
    if s != "" && HasLoneReturn(s[1..]) {
      var tail := s[1..];
      var i :| 0 <= i < |tail| && LoneReturnAt(tail, i);
      assert tail[i] == s[i + 1] && (i + 1 < |tail| ==> tail[i + 1] == s[i + 2]);
      assert LoneReturnAt(s, i + 1);
    }
  }

  /** What reading the line ends leaves of carriage returns are the lone ones. */
  lemma {:induction false} LoneReturnsStay(s: string)
    ensures '\r' in ReadNewlines(false, s) <==> HasLoneReturn(s)
  {
    hide HasLoneReturn;
    LoneReturnHead(s);
    if s != "" {
      var tail := s[1..];
      if s[0] == '\r' && |s| > 1 && s[1] == '\n' {
        LoneReturnHead(tail);
        assert tail[1..] == s[2..];
        LoneReturnsStay(s[2..]);
      } else {
        LoneReturnsStay(tail);
      }
    }
  }

  lemma NoReturnNoLone(s: string)
    requires '\r' !in s
    ensures !HasLoneReturn(s)
  {
  }

  /** The first character alone, read before the rest. */
  lemma HeadIsRead(lone: bool, c: char, after: string)
    requires c == '\r' ==> after == "" || after[0] != '\n'
    ensures ReadNewlines(lone, [c] + after) == [if lone && c == '\r' then '\n' else c] + ReadNewlines(lone, after)
  {
    var s := [c] + after;
    assert s[1..] == after;
  }

  /** Reading line ends works piecewise, unless a pair straddles the seam. */
  lemma {:induction false} NewlinesOfConcat(lone: bool, x: string, y: string)
    requires x != "" && x[|x| - 1] == '\r' ==> y == "" || y[0] != '\n'
    ensures ReadNewlines(lone, x + y) == ReadNewlines(lone, x) + ReadNewlines(lone, y)
    decreases |x|
  {
    hide ReadNewlines;
    if x == "" {
      NothingToRead(lone);
      assert x + y == y && "" + ReadNewlines(lone, y) == ReadNewlines(lone, y);
    } else if x[0] == '\r' && |x| > 1 && x[1] == '\n' {
      var tail := x[2..];
      NewlinesOfConcat(lone, tail, y);
      PairIsRead(lone, tail);
      PairIsRead(lone, tail + y);
      assert x == "\r\n" + tail && x + y == "\r\n" + (tail + y);
      Assoc("\n", ReadNewlines(lone, tail), ReadNewlines(lone, y));
    } else {
      var tail := x[1..];
      NewlinesOfConcat(lone, tail, y);
      HeadIsRead(lone, x[0], tail);
      HeadIsRead(lone, x[0], tail + y);
      assert x == [x[0]] + tail && x + y == [x[0]] + (tail + y);
      Assoc([if lone && x[0] == '\r' then '\n' else x[0]], ReadNewlines(lone, tail), ReadNewlines(lone, y));
    }
  }

  lemma NoReturnIsKept(lone: bool, s: string)
    requires '\r' !in s
    ensures ReadNewlines(lone, s) == s
  {
    hide ReadNewlines, Contains;
    NewlinesKeptIff(lone, s);
    PairHoldsReturn(s);
  }

  // ---------- table escapes ----------

  /** A table that leaves line ends alone and makes none. */
  ghost predicate LeavesLineEnds(table: Table) {
    forall c: char ::
      match table(c)
      case Some(r) => c != '\r' && c != '\n' && |r| == 2 && r[0] == '\\' && r[1] != '\r' && r[1] != '\n'
      case None => true
  }

  lemma Units(table: Table, c: char)
    requires LeavesLineEnds(table)
    ensures var unit := table(c).GetOr([c]);
            && 1 <= |unit| <= 2 && (unit[0] == '\n' <==> c == '\n')
            && (c != '\r' ==> '\r' !in unit)
            && (c == '\r' || c == '\n' ==> unit == [c])
  {
  }

  /** The escape commutes with reading line ends. */
  lemma {:induction false} NewlinesOfEscaped(lone: bool, table: Table, sql: string, more: string)
    requires LeavesLineEnds(table) && more != "" && more[0] != '\n'
    ensures ReadNewlines(lone, EscapeBy(table, sql) + more) == EscapeBy(table, ReadNewlines(lone, sql)) + ReadNewlines(lone, more)
    decreases |sql|
  {
    hide ReadNewlines, EscapeBy, LeavesLineEnds;
    if sql == "" {
      NothingToRead(lone);
      EscapesNothing(table);
      assert "" + more == more && "" + ReadNewlines(lone, more) == ReadNewlines(lone, more);
    } else {
      var (c, tail) := (sql[0], sql[1..]);
      var (unit, after) := (table(c).GetOr([c]), EscapeBy(table, tail) + more);
      assert sql == [c] + tail;
      Units(table, c);
      EscapeHead(table, sql);
      Assoc(unit, EscapeBy(table, tail), more);
      if c == '\r' && tail != "" && tail[0] == '\n' {
        var rest := tail[1..];
        NewlinesOfEscaped(lone, table, rest, more);
        Units(table, '\n');
        EscapeHead(table, tail);
        PairIsRead(lone, rest);
        PairIsRead(lone, EscapeBy(table, rest) + more);
        assert sql == "\r\n" + rest;
        assert EscapeBy(table, sql) + more == "\r\n" + (EscapeBy(table, rest) + more);
        ReadUnit(table, '\n', ReadNewlines(lone, rest), ReadNewlines(lone, more));
      } else {
        NewlinesOfEscaped(lone, table, tail, more);
        if c == '\r' {
          if tail != "" {
            Units(table, tail[0]);
            EscapeHead(table, tail);
          } else {
            EscapesNothing(table);
          }
          HeadIsRead(lone, c, tail);
          HeadIsRead(lone, c, after);
          Units(table, '\n');
          ReadUnit(table, if lone then '\n' else '\r', ReadNewlines(lone, tail), ReadNewlines(lone, more));
        } else {
          OtherIsKept(lone, [c], tail);
          OtherIsKept(lone, unit, after);
          ReadUnit(table, c, ReadNewlines(lone, tail), ReadNewlines(lone, more));
        }
      }
    }
  }

  lemma EscapesNothing(table: Table)
    ensures EscapeBy(table, "") == ""
  {
  }

  lemma ReadUnit(table: Table, c: char, tail: string, more: string)
    ensures EscapeBy(table, [c] + tail) + more == table(c).GetOr([c]) + (EscapeBy(table, tail) + more)
  {
    assert ([c] + tail)[1..] == tail;
    Assoc(table(c).GetOr([c]), EscapeBy(table, tail), more);
  }

  /** The literal, its closer and what follows, line ends read: the same for the SQL with its own read. */
  lemma NewlinesOfLiteral(lone: bool, table: Table, sql: string, closer: string, rest: string)
    requires LeavesLineEnds(table) && closer != "" && closer[0] != '\n' && '\r' !in closer
    ensures ReadNewlines(lone, EscapeBy(table, sql) + closer + rest)
         == EscapeBy(table, ReadNewlines(lone, sql)) + closer + ReadNewlines(lone, rest)
  {
    hide EscapeBy, ReadNewlines, LeavesLineEnds;
    NewlinesOfEscaped(lone, table, sql, closer + rest);
    Assoc(EscapeBy(table, sql), closer, rest);
    assert closer[|closer| - 1] in closer;
    NewlinesOfConcat(lone, closer, rest);
    NoReturnIsKept(lone, closer);
    Assoc(EscapeBy(table, ReadNewlines(lone, sql)), closer, ReadNewlines(lone, rest));
  }

  /**
   Python's literal is refused when the SQL holds NUL. Otherwise it is the SQL with its line ends
   read, so it is the SQL exactly when that holds no carriage return either.
   */
  lemma PythonReadsBack(sql: string, rest: string)
    ensures var r := Lex(PYTHON, ReadNewlines(true, EscapePythonTripleDouble(sql) + "\"\"\"" + rest));
            && r == (if '\0' in sql then None else Some((ReadNewlines(true, sql), ReadNewlines(true, rest))))
            && (r == Some((sql, ReadNewlines(true, rest))) <==> '\0' !in sql && '\r' !in sql)
  {
    hide EscapeBy, Lex, ReadNewlines, Contains;
    NewlinesOfLiteral(true, PythonTable, sql, "\"\"\"", rest);
    TableEscapeReadsBack(PythonTable, PYTHON, ReadNewlines(true, sql), ReadNewlines(true, rest));
    OthersStay(true, sql, '\0');
    NewlinesKeptIff(true, sql);
    PairHoldsReturn(sql);
  }

  /**
   Rust's literal is refused when the SQL holds a carriage return that no newline follows. Otherwise
   it compiles to the SQL with its line ends read: the SQL itself exactly without carriage returns.
   */
  lemma RustReadsBack(sql: string, rest: string)
    ensures var r := Lex(RUST, ReadNewlines(false, EscapeRustString(sql) + "\"" + rest));
            && r == (if HasLoneReturn(sql) then None else Some((ReadNewlines(false, sql), ReadNewlines(false, rest))))
            && (r == Some((sql, ReadNewlines(false, rest))) <==> '\r' !in sql)
  {
    hide EscapeBy, Lex, ReadNewlines, Contains, HasLoneReturn;
    NewlinesOfLiteral(false, RustTable, sql, "\"", rest);
    TableEscapeReadsBack(RustTable, RUST, ReadNewlines(false, sql), ReadNewlines(false, rest));
    LoneReturnsStay(sql);
    if '\r' !in sql {
      NoReturnIsKept(false, sql);
      NoReturnNoLone(sql);
    }
  }

  /** An input whose literal compiles and silently holds another text. */
  lemma RustDropsReturn()
    ensures Lex(RUST, ReadNewlines(false, EscapeRustString("a\r\nb") + "\"")) == Some(("a\nb", ""))
  {
    hide EscapeBy, Lex, ReadNewlines;
    var sql := "a\r\nb";
    RustReadsBack(sql, "");
    assert EscapeRustString(sql) + "\"" + "" == EscapeRustString(sql) + "\"";
    assert sql[1..] == "\r\nb" && sql[3..] == "b";
    assert !HasLoneReturn(sql);
    PairIsRead(false, "b");
    OtherIsKept(false, "a", "\r\nb");
    OtherIsKept(false, "b", "");
    NothingToRead(false);
    assert "\r\n" + "b" == "\r\nb" && "a" + "\r\nb" == sql && "b" + "" == "b";
    assert ReadNewlines(false, sql) == "a" + ("\n" + "b") == "a\nb";
  }
}
