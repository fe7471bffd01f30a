/**
 Escaping SQL for host-language string literals, checked against a lexer for each host form.

 `Lex` reads the inside of a literal up to its closing delimiter. It returns the literal's value
 and the text after the delimiter, or nothing when the text is not one constant literal: a
 character the form forbids, an escape outside the ones listed, or an interpolation.
 */
module SqlLiterals {
  import opened Wrappers
  import opened Text
  import opened JavaUnicode

  // ---------- escaping ----------

  type Table = char -> Option<string>

  /** `escape_char_by_char`: each character replaced by its entry, or kept. */
  function EscapeBy(table: Table, sql: string): string {
    if sql == "" then "" else table(sql[0]).GetOr([sql[0]]) + EscapeBy(table, sql[1..])
  }

  lemma {:induction false} EscapeByConcat(table: Table, s: string, t: string)
    ensures EscapeBy(table, s + t) == EscapeBy(table, s) + EscapeBy(table, t)
  {
    if s == "" {
      assert s + t == t;
    } else {
      assert (s + t)[1..] == s[1..] + t;
      EscapeByConcat(table, s[1..], t);
    }
  }

  method EscapeCharByChar(sql: string, substitute: Table) returns (out: string)
    ensures out == EscapeBy(substitute, sql)
  {
    out := "";
    for i := 0 to |sql|
      invariant out == EscapeBy(substitute, sql[..i])
    {
      var ch := sql[i];
      assert sql[..i + 1] == sql[..i] + [ch];
      EscapeByConcat(substitute, sql[..i], [ch]);
      var replacement := substitute(ch);
      if replacement.Some? {
        out := out + replacement.value;
      } else {
        out := out + [ch];
      }
    }
    assert sql[..|sql|] == sql;
  }

  function KotlinTable(c: char): Option<string> {
    match c
    case '\\' => Some("\\\\")
    case '\"' => Some("\\\"")
    case '$' => Some("\\$")
    case '\n' => Some("\\n")
    case '\r' => Some("\\r")
    case '\t' => Some("\\t")
    case _ => None
  }

  function PhpTable(c: char): Option<string> {
    match c
    case '\\' => Some("\\\\")
    case '\'' => Some("\\'")
    case _ => None
  }

  function JavaTable(c: char): Option<string> {
    match c
    case '\\' => Some("\\\\")
    case '\"' => Some("\\\"")
    case '\n' => Some("\\n")
    case '\r' => Some("\\r")
    case '\t' => Some("\\t")
    case _ => None
  }

  function GoTable(c: char): Option<string> {
    match c
    case '\\' => Some("\\\\")
    case '\"' => Some("\\\"")
    case '\n' => Some("\\n")
    case '\r' => Some("\\r")
    case '\t' => Some("\\t")
    case _ => None
  }

  function PythonTable(c: char): Option<string> {
    match c
    case '\\' => Some("\\\\")
    case '\"' => Some("\\\"")
    case _ => None
  }

  function RustTable(c: char): Option<string> {
    match c
    case '\\' => Some("\\\\")
    case '\"' => Some("\\\"")
    case _ => None
  }

  // ---------- the host lexers ----------

  datatype Marker =
    | Inert
    | Always(c: char)
    | Before(opener: string)
    | RubyVariables

  datatype HostForm = HostForm(
    closer: string,
    escapes: map<char, char>,
    loneBackslash: bool,
    forbidden: set<char>,
    marker: Marker)

  predicate StartsInterpolation(form: HostForm, text: string) {
    match form.marker
    case Inert => false
    case Always(c) => text != "" && text[0] == c
    case Before(opener) => opener <= text
    case RubyVariables => text != "" && text[0] == '#' && RubyOpens(text[1..])
  }

  /** Letters, the underscore and everything outside ASCII start a Ruby identifier. */
  predicate RubyIdentifier(c: char) {
    'a' <= c <= 'z' || 'A' <= c <= 'Z' || c == '_' || c as int >= 0x80
  }

  /** Besides identifiers, Ruby has globals named by a digit or one of these characters. */
  predicate RubyGlobal(c: char) {
    || RubyIdentifier(c) || '0' <= c <= '9'
    || c in {'~', '*', '$', '?', '!', '@', '/', '\\', ';', ',', '.', '=', ':', '<', '>', '\"', '&', '`', '\'', '+'}
  }

  /**
   Whether Ruby interpolates at a `#` that `after` follows: `#{`, an instance or class variable, or
   a global, option variables such as `$-w` included.
   */
  predicate RubyOpens(after: string) {
    || (|after| > 0 && after[0] == '{')
    || (|after| > 1 && after[0] == '$' && RubyGlobal(after[1]))
    || (|after| > 2 && after[..2] == "$-" && RubyIdentifier(after[2]))
    || (|after| > 1 && after[0] == '@' && RubyIdentifier(after[1]))
    || (|after| > 2 && after[..2] == "@@" && RubyIdentifier(after[2]))
  }

  function Prepend(c: char, r: Option<(string, string)>): Option<(string, string)> {
    if r.Some? then Some(([c] + r.value.0, r.value.1)) else None
  }

  function Lex(form: HostForm, text: string): Option<(string, string)>
    decreases |text|
  {
    if form.closer <= text then Some(("", text[|form.closer|..]))
    else if text == "" then None
    else if text[0] == '\\' then
      if |text| > 1 && text[1] in form.escapes then Prepend(form.escapes[text[1]], Lex(form, text[2..]))
      else if form.loneBackslash then Prepend('\\', Lex(form, text[1..]))
      else None
    else if text[0] in form.forbidden || StartsInterpolation(form, text) then None
    else Prepend(text[0], Lex(form, text[1..]))
  }

  /** Kotlin `"..."`: any unescaped `$` is taken for a template. */
  const KOTLIN := HostForm("\"", map['\\' := '\\', '\"' := '\"', '\'' := '\'', '$' := '$', 'n' := '\n', 'r' := '\r', 't' := '\t', 'b' := '\U{0008}'],
                           false, {'\n', '\r'}, Always('$'))

  /** PHP `'...'`: only these two escapes, any other backslash is itself. */
  const PHP := HostForm("'", map['\\' := '\\', '\'' := '\''], true, {}, Inert)

  /** Java `"..."` after its Unicode-escape pass. */
  const JAVA := HostForm("\"", map['\\' := '\\', '\"' := '\"', '\'' := '\'', 'n' := '\n', 'r' := '\r', 't' := '\t', 'b' := '\U{0008}', 'f' := '\U{000C}'],
                         false, {'\n', '\r'}, Inert)

  /** Go interpreted `"..."`; the compiler refuses NUL and, past the first byte, U+FEFF anywhere in a file. */
  const GO := HostForm("\"", map['\\' := '\\', '\"' := '\"', 'n' := '\n', 'r' := '\r', 't' := '\t', 'a' := '\U{0007}', 'b' := '\U{0008}', 'f' := '\U{000C}', 'v' := '\U{000B}'],
                       false, {'\n', '\0', '\U{FEFF}'}, Inert)

  /** Python `"""..."""`, after its reading of line ends; NUL is refused anywhere in a file. */
  const PYTHON := HostForm("\"\"\"", map['\\' := '\\', '\"' := '\"', '\'' := '\'', 'n' := '\n', 'r' := '\r', 't' := '\t'],
                           false, {'\0'}, Inert)

  /** Rust `"..."`, after its reading of line ends; a carriage return left by that is refused (Rust Reference, "String literals"). */
  const RUST := HostForm("\"", map['\\' := '\\', '\"' := '\"', '\'' := '\'', 'n' := '\n', 'r' := '\r', 't' := '\t', '0' := '\U{0000}'],
                         false, {'\r'}, Inert)

  /** The characters that change the direction of text, which Elixir refuses in literals and comments. */
  const DIRECTIONS: set<char> := {'\U{202A}', '\U{202B}', '\U{202C}', '\U{202D}', '\U{202E}', '\U{2066}', '\U{2067}', '\U{2068}', '\U{2069}'}

  /** Elixir `"..."`, which interpolates on `#{`. */
  const ELIXIR := HostForm("\"", map['\\' := '\\', '\"' := '\"', '#' := '#', 'n' := '\n', 'r' := '\r', 't' := '\t'],
                           false, DIRECTIONS, Before("#{"))

  /** Ruby `"..."`, which also interpolates variables without braces. */
  const RUBY := ELIXIR.(forbidden := {}, marker := RubyVariables)

  // ---------- table escapes ----------

  /** A table suits a form: what it rewrites is read back, what it keeps needs no rewriting. */
  ghost predicate Suits(table: Table, form: HostForm) {
    && form.closer != "" && form.closer[0] != '\\'
    && forall c: char ::
         match table(c)
         case Some(r) => |r| == 2 && r[0] == '\\' && r[1] in form.escapes && form.escapes[r[1]] == c
         case None => c != '\\' && c != form.closer[0] && !(form.marker.Always? && form.marker.c == c) && !form.marker.Before? && !form.marker.RubyVariables?
  }

  /** No character the table keeps is one the form forbids. */
  predicate Admits(table: Table, form: HostForm, sql: string) {
    forall c :: c in sql && table(c).None? ==> c !in form.forbidden
  }

  /** The literal reads back as the SQL, whatever follows it, exactly when the form admits the SQL. */
  lemma {:induction false} TableEscapeReadsBack(table: Table, form: HostForm, sql: string, rest: string)
    requires Suits(table, form)
    ensures Lex(form, EscapeBy(table, sql) + form.closer + rest)
         == if Admits(table, form, sql) then Some((sql, rest)) else None
  {
    hide StartsInterpolation, Lex, EscapeBy, Admits;
    if sql == "" {
      TableClosesAtOnce(table, form, rest);
    } else {
      var (c, tail) := (sql[0], sql[1..]);
      var unit := table(c).GetOr([c]);
      var after := EscapeBy(table, tail) + form.closer + rest;
      TableEscapeReadsBack(table, form, tail, rest);
      assert sql == [c] + tail;
      AdmitsHead(table, form, c, tail);
      EscapeHead(table, sql);
      Assoc(unit, EscapeBy(table, tail), form.closer);
      Assoc(unit, EscapeBy(table, tail) + form.closer, rest);
      LexUnit(table, form, c, after);
    }
  }

  lemma EscapeHead(table: Table, sql: string)
    requires sql != ""
    ensures EscapeBy(table, sql) == table(sql[0]).GetOr([sql[0]]) + EscapeBy(table, sql[1..])
  {
  }

  lemma TableClosesAtOnce(table: Table, form: HostForm, rest: string)
    ensures Lex(form, EscapeBy(table, "") + form.closer + rest) == Some(("", rest))
    ensures Admits(table, form, "")
  {
    var text := form.closer + rest;
    assert EscapeBy(table, "") + form.closer + rest == text && text[|form.closer|..] == rest;
  }

  /** The lexer takes back one character's escape, or refuses a character it forbids. */
  lemma LexUnit(table: Table, form: HostForm, c: char, after: string)
    requires Suits(table, form)
    ensures Lex(form, table(c).GetOr([c]) + after)
         == if table(c).None? && c in form.forbidden then None else Prepend(c, Lex(form, after))
  {
    hide StartsInterpolation;
    var text := table(c).GetOr([c]) + after;
    if table(c).Some? {
      assert text[0] == '\\' && text[1] == table(c).value[1] && text[2..] == after;
    } else {
      assert text[0] == c && text[1..] == after;
      KeptIsInert(table, form, c, after);
    }
  }

  lemma AdmitsHead(table: Table, form: HostForm, c: char, tail: string)
    ensures Admits(table, form, [c] + tail) <==> !(table(c).None? && c in form.forbidden) && Admits(table, form, tail)
  {
    var sql := [c] + tail;
    assert forall d :: d in sql <==> d == c || d in tail;
  }

  lemma KeptIsInert(table: Table, form: HostForm, c: char, after: string)
    requires Suits(table, form) && table(c).None?
    ensures !StartsInterpolation(form, [c] + after)
  {
  }

  function EscapeKotlinString(sql: string): string { EscapeBy(KotlinTable, sql) }
  function EscapePhpSingleQuoted(sql: string): string { EscapeBy(PhpTable, sql) }
  function EscapeJavaString(sql: string): string { EscapeBy(JavaTable, sql) }
  function EscapeGoInterpretedString(sql: string): string { EscapeBy(GoTable, sql) }
  function EscapePythonTripleDouble(sql: string): string { EscapeBy(PythonTable, sql) }
  function EscapeRustString(sql: string): string { EscapeBy(RustTable, sql) }

  lemma KotlinReadsBack(sql: string, rest: string)
    ensures Lex(KOTLIN, EscapeKotlinString(sql) + "\"" + rest) == Some((sql, rest))
  {
    hide EscapeBy, Lex;
    TableEscapeReadsBack(KotlinTable, KOTLIN, sql, rest);
  }

  lemma PhpReadsBack(sql: string, rest: string)
    ensures Lex(PHP, EscapePhpSingleQuoted(sql) + "'" + rest) == Some((sql, rest))
  {
    hide EscapeBy, Lex;
    TableEscapeReadsBack(PhpTable, PHP, sql, rest);
  }

  /** A Go literal carries the SQL exactly when the SQL holds neither NUL nor U+FEFF. */
  lemma GoReadsBack(sql: string, rest: string)
    ensures Lex(GO, EscapeGoInterpretedString(sql) + "\"" + rest)
         == if '\0' in sql || '\U{FEFF}' in sql then None else Some((sql, rest))
  {
    hide EscapeBy, Lex;
    TableEscapeReadsBack(GoTable, GO, sql, rest);
  }

  // ---------- SQL that is its own escape ----------

  /** A table whose replacements are longer leaves alone exactly the text it has no entry for. */
  lemma {:induction false} EscapeUnchangedIff(table: Table, sql: string)
    requires forall c: char :: table(c).Some? ==> |table(c).value| > 1
    ensures |EscapeBy(table, sql)| >= |sql|
    ensures EscapeBy(table, sql) == sql <==> forall c :: c in sql ==> table(c).None?
  {
    if sql != "" {
      var (c, tail) := (sql[0], sql[1..]);
      assert sql == [c] + tail;
      EscapeUnchangedIff(table, tail);
      EscapeHead(table, sql);
      assert forall d :: d in sql <==> d == c || d in tail;
      if table(c).None? {
        assert ([c] + EscapeBy(table, tail))[1..] == EscapeBy(table, tail);
      } else {
        assert |EscapeBy(table, sql)| > |sql|;
      }
    }
  }

  /** What each host's escape changes: the listed characters and nothing else. */
  lemma EscapesOnly(sql: string)
    ensures EscapeKotlinString(sql) == sql <==> forall c :: c in sql ==> c !in {'\\', '\"', '$', '\n', '\r', '\t'}
    ensures EscapePhpSingleQuoted(sql) == sql <==> forall c :: c in sql ==> c !in {'\\', '\''}
    ensures EscapeJavaString(sql) == sql <==> forall c :: c in sql ==> c !in {'\\', '\"', '\n', '\r', '\t'}
    ensures EscapeGoInterpretedString(sql) == sql <==> forall c :: c in sql ==> c !in {'\\', '\"', '\n', '\r', '\t'}
    ensures EscapePythonTripleDouble(sql) == sql <==> forall c :: c in sql ==> c !in {'\\', '\"'}
    ensures EscapeRustString(sql) == sql <==> forall c :: c in sql ==> c !in {'\\', '\"'}
  {
    hide EscapeBy;
    EscapeUnchangedIff(KotlinTable, sql);
    EscapeUnchangedIff(PhpTable, sql);
    EscapeUnchangedIff(JavaTable, sql);
    EscapeUnchangedIff(GoTable, sql);
    EscapeUnchangedIff(PythonTable, sql);
    EscapeUnchangedIff(RustTable, sql);
  }

  // ---------- Java's Unicode-escape pass ----------

  /** The pass leaves an escaped literal and its closing quote as they are, and goes on after them. */
  lemma {:induction false} UnicodePassKeepsLiteral(sql: string, rest: string)
    ensures UnicodePass(EscapeJavaString(sql) + "\"" + rest) == PrependText(EscapeJavaString(sql) + "\"", UnicodePass(rest))
  {
    hide UnicodePass, JavaTable;
    var piece := if sql == "" then "\"" else JavaTable(sql[0]).GetOr([sql[0]]);
    JavaUnits(if sql == "" then 'x' else sql[0]);
    if sql == "" {
      assert EscapeJavaString(sql) + "\"" == piece;
      PassOneUnit(piece, rest);
    } else {
      var mine := EscapeJavaString(sql[1..]) + "\"";
      UnicodePassKeepsLiteral(sql[1..], rest);
      Assoc(piece, EscapeJavaString(sql[1..]), "\"");
      Assoc(piece, mine, rest);
      PassOneUnit(piece, mine + rest);
      Assoc(piece, mine, UnicodePass(rest).GetOr(""));
    }
  }

  /** What the table makes of a character is never a lone backslash, nor one before a `u`. */
  lemma JavaUnits(c: char)
    ensures var unit := JavaTable(c).GetOr([c]);
            if |unit| == 1 then unit[0] != '\\' else |unit| == 2 && unit[0] == '\\' && unit[1] != 'u'
  {
  }

  /** Both Java steps together give the SQL back, and leave the following text to the first step. */
  lemma JavaReadsBack(sql: string, rest: string)
    ensures var text := EscapeJavaString(sql) + "\"" + rest;
            && (UnicodePass(text).Some? <==> UnicodePass(rest).Some?)
            && (UnicodePass(text).Some? ==> Lex(JAVA, UnicodePass(text).value) == Some((sql, UnicodePass(rest).value)))
  {
    hide EscapeBy, Lex, UnicodePass;
    UnicodePassKeepsLiteral(sql, rest);
    if UnicodePass(rest).Some? {
      TableEscapeReadsBack(JavaTable, JAVA, sql, UnicodePass(rest).value);
    }
  }

  /** Number of backslashes directly before position `i`. */
  function BackslashRun(text: string, i: nat): nat
    requires i <= |text|
  {
    if i > 0 && text[i - 1] == '\\' then 1 + BackslashRun(text, i - 1) else 0
  }

  /** Every `u` of an escaped Java literal stands after an even run of backslashes. */
  lemma {:induction false} BackslashRunsBeforeUAreEven(sql: string, i: nat)
    requires i < |EscapeJavaString(sql)| && EscapeJavaString(sql)[i] == 'u'
    ensures BackslashRun(EscapeJavaString(sql), i) % 2 == 0
    decreases |sql|
  {
    var n := |sql| - 1;
    var (init, last) := (sql[..n], sql[n]);
    assert sql == init + [last];
    EscapeByConcat(JavaTable, init, [last]);
    var (text, head) := (EscapeJavaString(sql), EscapeJavaString(init));
    var tail := EscapeBy(JavaTable, [last]);
    assert [last][1..] == "";
    assert tail == JavaTable(last).GetOr([last]);
    if i < |head| {
      RunOfPrefix(head, tail, i);
      BackslashRunsBeforeUAreEven(init, i);
    } else {
      assert i == |head|;
      RunOfPrefix(head, tail, i);
      FinalRunIsEven(init);
    }
  }

  lemma {:induction false} RunOfPrefix(head: string, tail: string, i: nat)
    requires i <= |head|
    ensures BackslashRun(head + tail, i) == BackslashRun(head, i)
  {
    if i > 0 {
      RunOfPrefix(head, tail, i - 1);
    }
  }

  /** Escaped text ends in an even run, so nothing spliced after it is ever escaped by it. */
  lemma {:induction false} FinalRunIsEven(sql: string)
    ensures BackslashRun(EscapeJavaString(sql), |EscapeJavaString(sql)|) % 2 == 0
  {
    if sql != "" {
      var n := |sql| - 1;
      var (init, last) := (sql[..n], sql[n]);
      assert sql == init + [last];
      EscapeByConcat(JavaTable, init, [last]);
      FinalRunIsEven(init);
      var (text, head) := (EscapeJavaString(sql), EscapeJavaString(init));
      var tail := EscapeBy(JavaTable, [last]);
      assert [last][1..] == "";
      assert tail == JavaTable(last).GetOr([last]);
      RunOfPrefix(head, tail, |head|);
    }
  }

  // ---------- C# verbatim ----------

  function EscapeCsharpVerbatim(sql: string): string {
    ReplaceAll(sql, "\"", "\"\"")
  }

  /** Inside `@"..."`: a doubled quote is a quote, a single one ends the literal. */
  function LexVerbatim(text: string): Option<(string, string)>
    decreases |text|
  {
    if text == "" then None
    else if text[0] != '\"' then Prepend(text[0], LexVerbatim(text[1..]))
    else if |text| > 1 && text[1] == '\"' then Prepend('\"', LexVerbatim(text[2..]))
    else Some(("", text[1..]))
  }

  lemma {:induction false} VerbatimPrefix(sql: string, more: string)
    ensures LexVerbatim(EscapeCsharpVerbatim(sql) + more)
         == var r := LexVerbatim(more); if r.Some? then Some((sql + r.value.0, r.value.1)) else None
  {
    hide LexVerbatim, ReplaceAll;
    var r := LexVerbatim(more);
    VerbatimHead(sql);
    if sql == "" {
      assert EscapeCsharpVerbatim(sql) + more == more;
      if r.Some? {
        assert sql + r.value.0 == r.value.0;
      }
    } else {
      var (unit, tail) := (if sql[0] == '\"' then "\"\"" else [sql[0]], EscapeCsharpVerbatim(sql[1..]));
      VerbatimPrefix(sql[1..], more);
      Assoc(unit, tail, more);
      VerbatimUnit(sql[0], tail + more);
      if r.Some? {
        Assoc([sql[0]], sql[1..], r.value.0);
        assert sql == [sql[0]] + sql[1..];
      }
    }
  }

  lemma VerbatimHead(sql: string)
    ensures EscapeCsharpVerbatim(sql)
         == if sql == "" then "" else (if sql[0] == '\"' then "\"\"" else [sql[0]]) + EscapeCsharpVerbatim(sql[1..])
  {
    if sql != "" {
      assert ("\"" <= sql) == (sql[0] == '\"');
    }
  }

  lemma VerbatimUnit(c: char, after: string)
    ensures LexVerbatim((if c == '\"' then "\"\"" else [c]) + after) == Prepend(c, LexVerbatim(after))
  {
    if c == '\"' {
      var text := "\"\"" + after;
      assert text[2..] == after;
    } else {
      var text := [c] + after;
      assert text[1..] == after;
    }
  }

  /** The literal reads back as the SQL exactly when no quote directly follows it. */
  lemma CsharpReadsBack(sql: string, rest: string)
    ensures LexVerbatim(EscapeCsharpVerbatim(sql) + "\"" + rest) == Some((sql, rest))
            <==> rest == "" || rest[0] != '\"'
  {
    var more := "\"" + rest;
    assert EscapeCsharpVerbatim(sql) + "\"" + rest == EscapeCsharpVerbatim(sql) + more;
    VerbatimPrefix(sql, more);
    assert more[1..] == rest;
    var r := LexVerbatim(more);
    if rest == "" || rest[0] != '\"' {
      assert sql + "" == sql;
    } else if r.Some? {
      assert r.value.0 != "";
      assert |sql + r.value.0| > |sql|;
    }
  }
}
