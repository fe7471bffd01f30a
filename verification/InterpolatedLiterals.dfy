/** SQL in the double-quoted literals of Ruby and Elixir, which interpolate. */
module InterpolatedLiterals {
  import opened Wrappers
  import opened Text
  import opened SqlLiterals
  import opened HostNewlines

  /** What the first character becomes; the opener takes one character of lookahead. */
  function InterpolatingHead(sql: string, marker: char): string
    requires sql != ""
  {
    if sql[0] == '\\' then "\\\\"
    else if sql[0] == '\"' then "\\\""
    else if sql[0] == marker && |sql| > 1 && sql[1] == '{' then ['\\', marker]
    else [sql[0]]
  }

  /** `escape_interpolating_double_quoted`. */
  function EscapeInterpolating(sql: string, marker: char): string {
    if sql == "" then "" else InterpolatingHead(sql, marker) + EscapeInterpolating(sql[1..], marker)
  }

  /** The loop over a peekable character iterator; `rest` is what the iterator has left. */
  method EscapeInterpolatingDoubleQuoted(sql: string, marker: char) returns (out: string)
    ensures out == EscapeInterpolating(sql, marker)
  {
    out := "";
    var rest := sql;
    while rest != ""
      invariant out + EscapeInterpolating(rest, marker) == EscapeInterpolating(sql, marker)
      decreases |rest|
    {
      ghost var (before, head) := (out, InterpolatingHead(rest, marker));
      var ch := rest[0];
      rest := rest[1..];
      assert before + (head + EscapeInterpolating(rest, marker)) == (before + head) + EscapeInterpolating(rest, marker);
      if ch == '\\' {
        out := out + "\\\\";
      } else if ch == '\"' {
        out := out + "\\\"";
      } else if ch == marker && rest != "" && rest[0] == '{' {
        out := out + "\\";
        out := out + [marker];
      } else {
        out := out + [ch];
      }
      assert out == before + head;
    }
    assert out + "" == out;
  }

  function EscapeElixirDoubleQuoted(sql: string): string { EscapeInterpolating(sql, '#') }
  function EscapeRubyDoubleQuoted(sql: string): string { EscapeInterpolating(sql, '#') }

  // ---------- what the escape leaves open ----------

  /**
   Whether Ruby takes a variable at a `#` of the SQL that `after` follows. The escape puts a
   backslash before a quote, a backslash or `#{`, and the closing quote follows the last character;
   the globals `$\` and `$"` make each of these part of a variable after `#$`.
   */
  predicate VariableAfter(after: string) {
    || after == "$"
    || (|after| > 1 && after[0] == '$' && RubyGlobal(after[1]))
    || (|after| > 2 && after[..3] == "$#{")
    || (|after| > 2 && after[..2] == "$-" && RubyIdentifier(after[2]))
    || (|after| > 1 && after[0] == '@' && RubyIdentifier(after[1]))
    || (|after| > 2 && after[..2] == "@@" && RubyIdentifier(after[2]))
  }

  predicate HasRubyVariable(sql: string) {
    exists i :: 0 <= i < |sql| && sql[i] == '#' && VariableAfter(sql[i + 1..])
  }

  lemma VariableHead(sql: string)
    ensures HasRubyVariable(sql)
            <==> sql != "" && ((sql[0] == '#' && VariableAfter(sql[1..])) || HasRubyVariable(sql[1..]))
  {
    hide VariableAfter;
    if HasRubyVariable(sql) {
      var i :| 0 <= i < |sql| && sql[i] == '#' && VariableAfter(sql[i + 1..]);
      if i > 0 {
        assert sql[1..][i - 1] == '#' && sql[1..][i..] == sql[i + 1..];
      }
    }
    if sql != "" && HasRubyVariable(sql[1..]) {
      var i :| 0 <= i < |sql[1..]| && sql[1..][i] == '#' && VariableAfter(sql[1..][i + 1..]);
      assert sql[i + 1] == '#' && sql[i + 2..] == sql[1..][i + 1..];
    }
  }

  /** The escaped SQL, its closing quote and what follows. */
  function Written(sql: string, rest: string): string {
    EscapeInterpolating(sql, '#') + "\"" + rest
  }

  predicate Rewritten(sql: string)
    requires sql != ""
  {
    sql[0] == '\\' || sql[0] == '\"' || (sql[0] == '#' && |sql| > 1 && sql[1] == '{')
  }

  lemma WrittenHead(sql: string, rest: string)
    requires sql != ""
    ensures Written(sql, rest) == (if Rewritten(sql) then ['\\', sql[0]] else [sql[0]]) + Written(sql[1..], rest)
  {
    var head := InterpolatingHead(sql, '#');
    var tail := EscapeInterpolating(sql[1..], '#');
    assert head == if Rewritten(sql) then ['\\', sql[0]] else [sql[0]];
    assert EscapeInterpolating(sql, '#') == head + tail;
    assert head + tail + "\"" + rest == head + (tail + "\"" + rest);
  }

  lemma WrittenEnd(rest: string)
    ensures Written("", rest) == "\"" + rest
  {
  }

  lemma FirstWritten(sql: string, rest: string)
    ensures Written(sql, rest) != ""
    ensures Written(sql, rest)[0] == if sql == "" then '\"' else if Rewritten(sql) then '\\' else sql[0]
  {
    hide Written;
    if sql == "" {
      WrittenEnd(rest);
    } else {
      WrittenHead(sql, rest);
    }
  }

  /** After a `#` the escape keeps, Ruby interpolates exactly where the SQL holds a variable. */
  lemma KeptHashOpens(tail: string, rest: string)
    requires tail == "" || tail[0] != '{'
    ensures RubyOpens(Written(tail, rest)) <==> VariableAfter(tail)
  {
    hide Written, RubyIdentifier;
    var text := Written(tail, rest);
    FirstWritten(tail, rest);
    if tail != "" && tail[0] in {'$', '@'} {
      WrittenHead(tail, rest);
      var second := tail[1..];
      FirstWritten(second, rest);
      assert text[1] == Written(second, rest)[0];
      NoIdentifiers();
      if second != "" && second[0] in {'-', '@'} {
        WrittenHead(second, rest);
        FirstWritten(second[1..], rest);
        assert text[2] == Written(second[1..], rest)[0];
      }
    }
  }

  lemma NoIdentifiers()
    ensures forall c :: c in {'\\', '\"', '#', '{', '-', '@', '$'} ==> !RubyIdentifier(c)
  {
  }

  // ---------- reading back ----------

  lemma LexEscaped(form: HostForm, c: char, after: string)
    requires form.closer == "\"" && c in form.escapes && form.escapes[c] == c
    ensures Lex(form, ['\\', c] + after) == Prepend(c, Lex(form, after))
  {
    var text := ['\\', c] + after;
    assert text[0] == '\\' && text[1] == c && text[2..] == after;
  }

  lemma LexKept(form: HostForm, c: char, after: string)
    requires form.closer == "\"" && c != '\\' && c != '\"'
    ensures Lex(form, [c] + after)
         == if c in form.forbidden || StartsInterpolation(form, [c] + after) then None else Prepend(c, Lex(form, after))
  {
    var text := [c] + after;
    assert text[0] == c && text[1..] == after;
  }

  lemma ClosesAtOnce(form: HostForm, rest: string)
    requires form.closer == "\""
    ensures Lex(form, "\"" + rest) == Some(("", rest))
  {
    assert ("\"" + rest)[1..] == rest;
  }

  lemma BraceOpener(text: string)
    ensures "#{" <= text <==> |text| > 1 && text[0] == '#' && text[1] == '{'
  {
    var opener := "#{";
    if |text| > 1 && text[0] == '#' && text[1] == '{' {
      assert text[..2] == opener;
    }
  }

  /** What a kept character starts, in either host. */
  lemma KeptStarts(form: HostForm, sql: string, rest: string)
    requires form in {ELIXIR, RUBY} && sql != "" && !Rewritten(sql)
    ensures StartsInterpolation(form, [sql[0]] + Written(sql[1..], rest))
            <==> form == RUBY && sql[0] == '#' && VariableAfter(sql[1..])
  {
    hide Written, VariableAfter, RubyOpens;
    var after := Written(sql[1..], rest);
    var text := [sql[0]] + after;
    assert text[1..] == after;
    FirstWritten(sql[1..], rest);
    ElixirIsNotRuby();
    BraceOpener(text);
    if sql[0] == '#' {
      KeptHashOpens(sql[1..], rest);
    }
  }

  predicate HoldsAny(s: string, chars: set<char>) {
    exists c :: c in s && c in chars
  }

  lemma HoldsAnyHead(c: char, tail: string, chars: set<char>)
    ensures HoldsAny([c] + tail, chars) <==> c in chars || HoldsAny(tail, chars)
    ensures !HoldsAny("", chars)
  {
    assert forall d :: d in [c] + tail <==> d == c || d in tail;
  }

  /**
   The escape covers `#{` and nothing else: apart from characters the host refuses, Elixir reads the
   SQL back, Ruby unless a variable is left.
   */
  lemma {:induction false} InterpolatingReadsBack(form: HostForm, sql: string, rest: string)
    requires form in {ELIXIR, RUBY}
    ensures Lex(form, Written(sql, rest))
         == if HoldsAny(sql, form.forbidden) || (form == RUBY && HasRubyVariable(sql)) then None else Some((sql, rest))
    decreases |sql|
  {
    hide HasRubyVariable, Lex, Written, StartsInterpolation, VariableAfter, HoldsAny;
    VariableHead(sql);
    if sql == "" {
      WrittenEnd(rest);
      ClosesAtOnce(form, rest);
      HoldsAnyHead('x', "", form.forbidden);
    } else {
      var (c, tail) := (sql[0], sql[1..]);
      InterpolatingReadsBack(form, tail, rest);
      assert sql == [c] + tail;
      HoldsAnyHead(c, tail, form.forbidden);
      WrittenHead(sql, rest);
      if Rewritten(sql) {
        NoVariableOpener(sql);
        LexEscaped(form, c, Written(tail, rest));
      } else {
        LexKept(form, c, Written(tail, rest));
        KeptStarts(form, sql, rest);
      }
    }
  }

  lemma NoVariableOpener(sql: string)
    requires sql != "" && Rewritten(sql)
    ensures !(sql[0] == '#' && VariableAfter(sql[1..]))
  {
  }

  /**
   An Elixir literal carries the SQL exactly when the SQL holds no character that changes the
   direction of text; line ends are taken as they stand.
   */
  lemma ElixirReadsBack(sql: string, rest: string)
    ensures Lex(ELIXIR, EscapeElixirDoubleQuoted(sql) + "\"" + rest)
         == if HoldsAny(sql, DIRECTIONS) then None else Some((sql, rest))
  {
    hide EscapeInterpolating, Lex, HoldsAny;
    ElixirIsNotRuby();
    InterpolatingReadsBack(ELIXIR, sql, rest);
  }

  lemma ElixirIsNotRuby()
    ensures ELIXIR != RUBY
  {
    assert ELIXIR.marker != RUBY.marker;
  }

  lemma {:induction false} NewlinesOfWritten(sql: string, rest: string)
    ensures ReadNewlines(false, Written(sql, rest)) == Written(ReadNewlines(false, sql), ReadNewlines(false, rest))
    decreases |sql|
  {
    hide Written, ReadNewlines;
    FirstWritten(sql, rest);
    if sql == "" {
      WrittenEnd(rest);
      NothingToRead(false);
      WrittenEnd(ReadNewlines(false, rest));
      OtherIsKept(false, "\"", rest);
    } else {
      var (c, tail) := (sql[0], sql[1..]);
      WrittenHead(sql, rest);
      assert sql == [c] + tail;
      FirstWritten(tail, rest);
      if c == '\r' && tail != "" && tail[0] == '\n' {
        WrittenHead(tail, rest);
        NewlinesOfWritten(tail[1..], rest);
        PairIsRead(false, tail[1..]);
        PairIsRead(false, Written(tail[1..], rest));
        assert sql == "\r\n" + tail[1..];
        assert Written(sql, rest) == "\r\n" + Written(tail[1..], rest);
        var read := "\n" + ReadNewlines(false, tail[1..]);
        WrittenHead(read, ReadNewlines(false, rest));
        assert read[1..] == ReadNewlines(false, tail[1..]);
      } else {
        NewlinesOfWritten(tail, rest);
        HeadIsRead(false, c, tail);
        var read := [c] + ReadNewlines(false, tail);
        WrittenHead(read, ReadNewlines(false, rest));
        assert read[1..] == ReadNewlines(false, tail);
        FirstRead(false, tail);
        assert Rewritten(read) <==> Rewritten(sql);
        if Rewritten(sql) {
          OtherIsKept(false, ['\\', c], Written(tail, rest));
        } else {
          HeadIsRead(false, c, Written(tail, rest));
        }
      }
    }
  }

  /**
   A Ruby literal reads back as the SQL exactly when the SQL holds no variable in Ruby's sense and
   no carriage return before a newline, which Ruby reads as the newline alone.
   */
  lemma RubyReadsBack(sql: string, rest: string)
    ensures var r := Lex(RUBY, ReadNewlines(false, EscapeRubyDoubleQuoted(sql) + "\"" + rest));
            && (r == Some((sql, ReadNewlines(false, rest))) <==> !HasRubyVariable(sql) && !Contains(sql, "\r\n"))
            && (r.Some? ==> r.value == (ReadNewlines(false, sql), ReadNewlines(false, rest)))
  {
    hide EscapeInterpolating, Lex, ReadNewlines, HasRubyVariable, Contains;
    assert EscapeRubyDoubleQuoted(sql) + "\"" + rest == Written(sql, rest);
    NewlinesOfWritten(sql, rest);
    InterpolatingReadsBack(RUBY, ReadNewlines(false, sql), ReadNewlines(false, rest));
    NewlinesKeptIff(false, sql);
  }

  /** An instance variable in the SQL is interpolated. */
  lemma RubyShortFormIsLost()
    ensures Lex(RUBY, EscapeRubyDoubleQuoted("SELECT '#@x'") + "\"") == None
  {
    var sql := "SELECT '#@x'";
    hide EscapeInterpolating, Lex;
    assert EscapeRubyDoubleQuoted(sql) + "\"" == Written(sql, "");
    assert sql[8] == '#' && sql[9..] == "@x'" && VariableAfter(sql[9..]);
    InterpolatingReadsBack(RUBY, sql, "");
  }

  /** So is a numbered placeholder directly after a `#`, PostgreSQL's bitwise exclusive or. */
  lemma RubyPlaceholderIsLost()
    ensures Lex(RUBY, EscapeRubyDoubleQuoted("SELECT a #$1") + "\"") == None
  {
    var sql := "SELECT a #$1";
    hide EscapeInterpolating, Lex;
    assert EscapeRubyDoubleQuoted(sql) + "\"" == Written(sql, "");
    assert sql[9] == '#' && sql[10..] == "$1" && VariableAfter(sql[10..]);
    InterpolatingReadsBack(RUBY, sql, "");
  }
}
