/**
 Whether the provenance header stays a comment in each host language.

 Most hosts end a line comment at the line terminator and nowhere else. PHP also ends it at a
 closing tag, Java translates Unicode escapes before it knows what is a comment, and some hosts
 refuse certain characters wherever they stand.
 */
module HeaderComments {
  import opened Wrappers
  import opened Text
  import opened HeaderFields
  import opened JavaUnicode
  import opened ProvenanceHeader
  import SqlLiterals

  const CLOSING_TAG := "?>"

  /** What ends a line in some host; a header holds none of these before its end. */
  predicate EndsLine(c: char) {
    c in {'\n', '\r', '\U{0085}', '\U{2028}', '\U{2029}'}
  }

  /** Characters a host refuses even in a comment. */
  function Refused(language: string): set<char> {
    if language == "go" then {'\0', '\U{FEFF}'}
    else if language == "python" then {'\0'}
    else if language == "elixir" then SqlLiterals.DIRECTIONS
    else {}
  }

  /** What follows a line comment, given its text after the comment token; nothing if it is refused. */
  function SkipLine(endsAtTag: bool, refused: set<char>, s: string): Option<string> {
    if s == "" then Some("")
    else if endsAtTag && CLOSING_TAG <= s then Some(s)
    else if EndsLine(s[0]) then Some(s[1..])
    else if s[0] in refused then None
    else SkipLine(endsAtTag, refused, s[1..])
  }

  /**
   What follows the token of the line comment a text opens with: `#` in Python, Ruby and Elixir,
   `//` elsewhere, and in PHP also `#` unless it opens an attribute.
   */
  function OpensComment(language: string, text: string): Option<string> {
    if language == "python" || language == "ruby" || language == "elixir" then
      if "#" <= text then Some(text[1..]) else None
    else if "//" <= text then Some(text[2..])
    else if language == "php" && "#" <= text && !("#[" <= text) then Some(text[1..])
    else None
  }

  /** The live text after the line comment a source text opens with; nothing if it does not compile. */
  function AfterComment(language: string, text: string): Option<string> {
    var source := if language == "java" then UnicodePass(text) else Some(text);
    if source.None? || OpensComment(language, source.value).None? then None
    else SkipLine(language == "php", Refused(language), OpensComment(language, source.value).value)
  }

  /** A value the encoding leaves without a Unicode escape. */
  predicate Unescaped(value: string) {
    forall c :: c in value ==> LineSafe(c)
  }

  predicate AllUnescaped(fields: seq<(string, string)>) {
    forall i :: 0 <= i < |fields| ==> Unescaped(fields[i].1)
  }

  predicate NoneCloses(fields: seq<(string, string)>) {
    forall i :: 0 <= i < |fields| ==> !Contains(fields[i].1, CLOSING_TAG)
  }

  predicate NoneHolds(fields: seq<(string, string)>, chars: set<char>) {
    forall i :: 0 <= i < |fields| ==> forall c :: c in fields[i].1 ==> c !in chars
  }

  /** The field texts a host's comment can carry. */
  predicate CommentSafe(language: string, p: Provenance) {
    && (language == "java" ==> AllUnescaped(Fields(p)))
    && (language == "php" ==> NoneCloses(Fields(p)))
    && (language == "go" ==> NoneHolds(Fields(p), {'\U{FEFF}'}))
    && (language == "elixir" ==> NoneHolds(Fields(p), SqlLiterals.DIRECTIONS))
  }

  // ---------- Java ----------

  lemma {:induction false} SanitizedPasses(value: string, after: string)
    ensures UnicodePass(Sanitize(value) + after)
         == if Unescaped(value) then PrependText(Sanitize(value), UnicodePass(after)) else None
  {
    hide UnicodePass, ToHex, LineSafe;
    if value == "" {
      assert Sanitize(value) + after == after;
      assert "" + UnicodePass(after).GetOr("") == UnicodePass(after).GetOr("");
    } else {
      var (c, tail) := (value[0], value[1..]);
      assert value == [c] + tail;
      SanitizedPasses(tail, after);
      assert Sanitize(value) + after == EscapeChar(c) + (Sanitize(tail) + after);
      EscapedCharPasses(c, Sanitize(tail) + after);
      assert Sanitize(value) + UnicodePass(after).GetOr("") == EscapeChar(c) + (Sanitize(tail) + UnicodePass(after).GetOr(""));
      assert Unescaped(value) <==> LineSafe(c) && Unescaped(tail);
    }
  }

  lemma EscapedCharPasses(c: char, after: string)
    ensures UnicodePass(EscapeChar(c) + after)
         == if LineSafe(c) then PrependText(EscapeChar(c), UnicodePass(after)) else None
  {
    hide UnicodePass, ToHex;
    if c == '\\' || LineSafe(c) {
      PassOneUnit(EscapeChar(c), after);
    } else {
      BracedEscapeFails(ToHex(c as int) + "}" + after);
      assert EscapeChar(c) + after == "\\u{" + (ToHex(c as int) + "}" + after);
    }
  }

  predicate PlainKeys(fields: seq<(string, string)>) {
    forall i :: 0 <= i < |fields| ==> forall c :: c in fields[i].0 ==> c !in {'\\', '?', '>'}
  }

  lemma KeysArePlain(p: Provenance)
    ensures PlainKeys(Fields(p))
  {
  }

  lemma {:induction false} RenderedPasses(fields: seq<(string, string)>, after: string)
    requires PlainKeys(fields)
    ensures UnicodePass(RenderFields(fields) + after)
         == if AllUnescaped(fields) then PrependText(RenderFields(fields), UnicodePass(after)) else None
    decreases |fields|
  {
    hide UnicodePass, Sanitize, Unescaped;
    if fields == [] {
      assert RenderFields(fields) + after == after;
      assert "" + UnicodePass(after).GetOr("") == UnicodePass(after).GetOr("");
    } else {
      var (init, last) := (fields[..|fields| - 1], fields[|fields| - 1]);
      var (open, value) := (" " + last.0 + "=", Sanitize(last.1));
      var (head, tail) := (RenderFields(init), UnicodePass(after).GetOr(""));
      assert fields == init + [last];
      assert RenderFields(fields) == head + (open + value);
      assert RenderFields(fields) + after == head + (open + (value + after));
      assert RenderFields(fields) + tail == head + (open + (value + tail));
      RenderedPasses(init, open + (value + after));
      PlainPasses(open, value + after);
      SanitizedPasses(last.1, after);
    }
  }

  /** Java's translation keeps the whole header, or fails as soon as one field had to be escaped. */
  lemma JavaHeaderPasses(language: string, p: Provenance, after: string)
    requires language == "java"
    ensures var h := BuildHeaderLine(language, p);
            UnicodePass(h + after) == if AllUnescaped(Fields(p)) then PrependText(h, UnicodePass(after)) else None
  {
    hide UnicodePass, Fields, RenderFields, AllUnescaped, BuildHeaderLine;
    BuiltLine(language, p);
    KeysArePlain(p);
    var (open, fields, h) := ("// " + SENTINEL, RenderFields(Fields(p)), BuildHeaderLine(language, p));
    var tail := UnicodePass(after).GetOr("");
    assert h == open + fields + "\n";
    assert h + after == open + (fields + ("\n" + after)) && h + tail == open + (fields + ("\n" + tail));
    PlainPasses(open, fields + ("\n" + after));
    RenderedPasses(Fields(p), "\n" + after);
    PlainPasses("\n", after);
  }

  // ---------- PHP ----------

  /** A closing tag in a concatenation lies in one part or straddles the seam. */
  lemma {:induction false} TagInConcat(x: string, y: string)
    ensures Contains(x + y, CLOSING_TAG)
         <==> Contains(x, CLOSING_TAG) || Contains(y, CLOSING_TAG)
              || (x != "" && y != "" && x[|x| - 1] == '?' && y[0] == '>')
  {
    hide Contains;
    TagNowhere();
    if x == "" {
      assert x + y == y;
    } else {
      var s := x + y;
      assert s[1..] == x[1..] + y;
      TagInConcat(x[1..], y);
      ContainsShift(s, CLOSING_TAG);
      ContainsShift(x, CLOSING_TAG);
      TagAtStart(s);
      TagAtStart(x);
    }
  }

  lemma TagNowhere()
    ensures !Contains("", CLOSING_TAG)
  {
  }

  lemma TagAtStart(s: string)
    ensures CLOSING_TAG <= s <==> |s| > 1 && s[0] == '?' && s[1] == '>'
  {
  }

  lemma {:induction false} NoTagWithout(s: string)
    requires '?' !in s || '>' !in s
    ensures !Contains(s, CLOSING_TAG)
  {
    hide Contains;
    if s == "" {
      TagNowhere();
    } else {
      ContainsShift(s, CLOSING_TAG);
      TagAtStart(s);
      NoTagWithout(s[1..]);
    }
  }

  lemma EscapeIsNoTag(c: char)
    ensures var e := EscapeChar(c);
            && e != "" && !Contains(e, CLOSING_TAG)
            && (e[|e| - 1] == '?' <==> c == '?') && (e[0] == '>' <==> c == '>')
  {
    var e := EscapeChar(c);
    if c != '\\' && NeedsEscape(c) {
      NoQuestionInHex(c as int);
    }
    NoTagWithout(e);
  }

  lemma {:induction false} NoQuestionInHex(n: nat)
    ensures '?' !in ToHex(n)
  {
    if n >= 16 {
      NoQuestionInHex(n / 16);
    }
  }

  /** The encoding neither makes nor breaks a closing tag. */
  lemma {:induction false} TagSurvivesSanitize(value: string)
    ensures Contains(Sanitize(value), CLOSING_TAG) <==> Contains(value, CLOSING_TAG)
    ensures Sanitize(value) != "" <==> value != ""
    ensures value != "" ==> (Sanitize(value)[0] == '>' <==> value[0] == '>')
  {
    hide Contains, EscapeChar;
    if value != "" {
      var (c, tail) := (value[0], value[1..]);
      TagSurvivesSanitize(tail);
      EscapeIsNoTag(c);
      TagInConcat(EscapeChar(c), Sanitize(tail));
      ContainsShift(value, CLOSING_TAG);
      TagAtStart(value);
    }
  }

  lemma {:induction false} TagInRendered(fields: seq<(string, string)>)
    requires PlainKeys(fields)
    ensures !Contains(RenderFields(fields), CLOSING_TAG) <==> NoneCloses(fields)
    decreases |fields|
  {
    hide Contains, Sanitize;
    if fields == [] {
      TagNowhere();
    } else {
      var (init, last) := (fields[..|fields| - 1], fields[|fields| - 1]);
      var (open, value) := (" " + last.0 + "=", Sanitize(last.1));
      assert fields == init + [last];
      assert RenderFields(fields) == RenderFields(init) + (open + value);
      TagInRendered(init);
      TagSurvivesSanitize(last.1);
      NoTagWithout(open);
      TagInConcat(open, value);
      TagInConcat(RenderFields(init), open + value);
    }
  }

  // ---------- refused characters ----------

  lemma {:induction false} HexIsAscii(n: nat)
    ensures forall c :: c in ToHex(n) ==> c as int < 0x80
  {
    if n >= 16 {
      HexIsAscii(n / 16);
    }
  }

  /** Outside ASCII, the encoding keeps exactly the characters it need not escape. */
  lemma {:induction false} SanitizeHolds(value: string, c: char)
    requires c as int >= 0x80 && LineSafe(c)
    ensures c in Sanitize(value) <==> c in value
  {
    hide ToHex;
    if value != "" {
      var (d, tail) := (value[0], value[1..]);
      assert value == [d] + tail;
      SanitizeHolds(tail, c);
      HexIsAscii(d as int);
      assert c in EscapeChar(d) <==> c == d;
    }
  }

  predicate AsciiKeys(fields: seq<(string, string)>) {
    forall i :: 0 <= i < |fields| ==> forall c :: c in fields[i].0 ==> c as int < 0x80
  }

  lemma KeysAreAscii(p: Provenance)
    ensures AsciiKeys(Fields(p))
  {
  }

  lemma {:induction false} RenderedHolds(fields: seq<(string, string)>, c: char)
    requires c as int >= 0x80 && LineSafe(c) && AsciiKeys(fields)
    ensures c !in RenderFields(fields) <==> NoneHolds(fields, {c})
    decreases |fields|
  {
    hide Sanitize, LineSafe;
    if fields != [] {
      var (init, last) := (fields[..|fields| - 1], fields[|fields| - 1]);
      var (open, value) := (" " + last.0 + "=", Sanitize(last.1));
      assert fields == init + [last];
      assert RenderFields(fields) == RenderFields(init) + (open + value);
      RenderedHolds(init, c);
      SanitizeHolds(last.1, c);
      assert c !in open;
    }
  }

  /** No refused character is on the line exactly when no field holds one that is not escaped. */
  lemma NothingRefusedIff(language: string, p: Provenance)
    ensures (forall c :: c in Comment(language, p) ==> c !in Refused(language))
            <==> (language == "go" ==> NoneHolds(Fields(p), {'\U{FEFF}'}))
                 && (language == "elixir" ==> NoneHolds(Fields(p), SqlLiterals.DIRECTIONS))
  {
    hide Fields, RenderFields, NoneHolds, LineSafe;
    KeysAreAscii(p);
    CommentHoldsNoNul(language, p);
    forall c | c == '\U{FEFF}' || c in SqlLiterals.DIRECTIONS
      ensures c in Comment(language, p) <==> !NoneHolds(Fields(p), {c})
    {
      RefusedAreSafe(c);
      RenderedHolds(Fields(p), c);
      FixedIsAscii(language, c);
    }
    NoneHoldsAll(Fields(p), SqlLiterals.DIRECTIONS);
  }

  lemma RefusedAreSafe(c: char)
    requires c == '\U{FEFF}' || c in SqlLiterals.DIRECTIONS
    ensures c as int >= 0x80 && LineSafe(c)
  {
  }

  lemma FixedIsAscii(language: string, c: char)
    requires c as int >= 0x80
    ensures c !in " " + SENTINEL && c !in HeaderSuffix(language)
  {
  }

  lemma NoneHoldsAll(fields: seq<(string, string)>, chars: set<char>)
    ensures NoneHolds(fields, chars) <==> forall c :: c in chars ==> NoneHolds(fields, {c})
  {
    if forall c :: c in chars ==> NoneHolds(fields, {c}) {
      forall i, c | 0 <= i < |fields| && c in fields[i].1 ensures c !in chars {
        assert c in chars ==> NoneHolds(fields, {c});
      }
    }
  }

  lemma CommentHoldsNoNul(language: string, p: Provenance)
    ensures '\0' !in Comment(language, p)
  {
    hide Comment, BuildHeaderLine, CommentPrefix;
    CommentIs(language, p);
    HeaderIsOneCommentLine(language, p);
    var (h, token, comment) := (BuildHeaderLine(language, p), CommentPrefix(language), Comment(language, p));
    forall i | 0 <= i < |comment| ensures comment[i] != '\0' {
      assert comment[i] == h[|token| + i];
    }
  }

  // ---------- one comment in every host ----------

  /** Text without line ends or closing tags is skipped, terminator included, unless it is refused. */
  lemma {:induction false} SkipsLine(endsAtTag: bool, refused: set<char>, line: string, after: string)
    requires forall c :: c in line ==> !EndsLine(c)
    requires endsAtTag ==> !Contains(line, CLOSING_TAG)
    ensures SkipLine(endsAtTag, refused, line + ("\n" + after))
         == if forall c :: c in line ==> c !in refused then Some(after) else None
  {
    hide Contains, EndsLine;
    NewlineEndsLine();
    var s := line + ("\n" + after);
    TagAtStart(s);
    if line == "" {
      assert s[1..] == after;
    } else {
      assert s[1..] == line[1..] + ("\n" + after);
      assert line == [line[0]] + line[1..];
      ContainsShift(line, CLOSING_TAG);
      TagAtStart(line);
      SkipsLine(endsAtTag, refused, line[1..], after);
    }
  }

  lemma NewlineEndsLine()
    ensures EndsLine('\n')
  {
  }

  /** A closing tag ends the comment early: the tag and the rest of the line are live. */
  lemma {:induction false} StopsAtTag(line: string, after: string)
    requires forall c :: c in line ==> !EndsLine(c)
    requires Contains(line, CLOSING_TAG)
    ensures var live := SkipLine(true, {}, line + ("\n" + after));
            live.Some? && CLOSING_TAG <= live.value && |live.value| > |after|
  {
    hide Contains, EndsLine;
    TagNowhere();
    var s := line + ("\n" + after);
    assert s[1..] == line[1..] + ("\n" + after);
    ContainsShift(line, CLOSING_TAG);
    TagAtStart(s);
    TagAtStart(line);
    if !(CLOSING_TAG <= s) {
      StopsAtTag(line[1..], after);
    }
  }

  /** The header between the comment token and the final newline. */
  function Comment(language: string, p: Provenance): string {
    " " + SENTINEL + RenderFields(Fields(p)) + HeaderSuffix(language)
  }

  lemma CommentIs(language: string, p: Provenance)
    ensures BuildHeaderLine(language, p) == CommentPrefix(language) + (Comment(language, p) + "\n")
  {
    hide Fields, RenderFields, BuildHeaderLine, CommentPrefix, HeaderSuffix;
    BuiltLine(language, p);
  }

  lemma CommentStaysOnLine(language: string, p: Provenance)
    ensures forall c :: c in Comment(language, p) ==> !EndsLine(c)
  {
    hide HeaderChar, EndsLine, BuildHeaderLine, CommentPrefix, Comment;
    CommentIs(language, p);
    HeaderIsOneCommentLine(language, p);
    SafeEndsNoLine();
    var (h, token, comment) := (BuildHeaderLine(language, p), CommentPrefix(language), Comment(language, p));
    forall i | 0 <= i < |comment| ensures !EndsLine(comment[i]) {
      assert comment[i] == h[|token| + i];
    }
  }

  lemma TagInComment(language: string, p: Provenance)
    requires language == "php"
    ensures !Contains(Comment(language, p), CLOSING_TAG) <==> NoneCloses(Fields(p))
  {
    hide Fields, RenderFields, Contains, NoneCloses;
    var (open, fields) := (" " + SENTINEL, RenderFields(Fields(p)));
    assert Comment(language, p) == open + fields;
    KeysArePlain(p);
    TagInRendered(Fields(p));
    NoTagWithout(open);
    TagInConcat(open, fields);
  }

  lemma SafeEndsNoLine()
    ensures forall c :: HeaderChar(c) ==> !EndsLine(c)
  {
  }

  /**
   The header is a comment from end to end, and nothing after it is, exactly when: in Java, no
   field holds a blank or control character; in PHP, no field holds a closing tag; in Go, no field
   holds U+FEFF; in Elixir, no field holds a character that changes the direction of text; in every
   other host, always.
   */
  lemma HeaderIsCommentIff(language: string, p: Provenance, after: string)
    requires language == "java" ==> UnicodePass(after).Some?
    ensures AfterComment(language, BuildHeaderLine(language, p) + after)
         == (if language == "java" then UnicodePass(after) else Some(after))
         <==> CommentSafe(language, p)
  {
    hide UnicodePass, Contains, Fields, BuildHeaderLine, Comment, SkipLine, AllUnescaped, NoneCloses, NoneHolds, EndsLine, Refused;
    CommentIs(language, p);
    CommentStaysOnLine(language, p);
    NothingRefusedIff(language, p);
    var (token, comment) := (CommentPrefix(language), Comment(language, p));
    var live := if language == "java" then UnicodePass(after).value else after;
    var h := BuildHeaderLine(language, p);
    assert h + live == token + (comment + ("\n" + live));
    TokenOpens(language, comment + ("\n" + live));
    if language == "java" {
      JavaHeaderPasses(language, p, after);
    }
    if language == "php" {
      TagInComment(language, p);
      PhpRefusesNothing();
    }
    if language == "php" && !NoneCloses(Fields(p)) {
      StopsAtTag(comment, live);
    } else {
      SkipsLine(language == "php", Refused(language), comment, live);
    }
  }

  /** The token written is one the host takes for a comment. */
  lemma TokenOpens(language: string, rest: string)
    ensures OpensComment(language, CommentPrefix(language) + rest) == Some(rest)
  {
    var (hash, slashes) := ("#" + rest, "//" + rest);
    assert hash[1..] == rest && slashes[2..] == rest;
  }

  lemma PhpRefusesNothing()
    ensures Refused("php") == {}
  {
  }

  /** In every host but these four the header is a comment whatever the fields hold. */
  lemma OtherHostsAlwaysComment(language: string, p: Provenance, after: string)
    requires language !in {"java", "php", "go", "elixir"}
    ensures AfterComment(language, BuildHeaderLine(language, p) + after) == Some(after)
  {
    hide AfterComment, BuildHeaderLine;
    HeaderIsCommentIff(language, p, after);
  }

  /** An input: an engine name with a space in it makes a Java file that does not compile. */
  lemma JavaRejectsSpace()
    ensures UnicodePass(BuildHeaderLine("java", Provenance("1", "java-jdbc", "a b", "s", "q", None))) == None
  {
    hide UnicodePass, BuildHeaderLine;
    var p := Provenance("1", "java-jdbc", "a b", "s", "q", None);
    JavaHeaderPasses("java", p, "");
    assert BuildHeaderLine("java", p) + "" == BuildHeaderLine("java", p);
    assert !Unescaped(Fields(p)[2].1) by {
      assert ' ' in "a b";
    }
  }

  /** An input: a field holding a closing tag leaves the rest of a PHP header live. */
  lemma PhpLeavesTagLive(after: string)
    ensures var text := BuildHeaderLine("php", Provenance("1", "php-pdo", "?>", "s", "q", None)) + after;
            AfterComment("php", text) != Some(after)
  {
    hide AfterComment, BuildHeaderLine, Contains;
    var p := Provenance("1", "php-pdo", "?>", "s", "q", None);
    HeaderIsCommentIff("php", p, after);
    assert Contains(Fields(p)[2].1, CLOSING_TAG) by {
      ContainsShift("?>", CLOSING_TAG);
    }
  }

  /** An input: a byte order mark in a field makes a Go file that does not compile. */
  lemma GoRefusesMark(after: string)
    ensures AfterComment("go", BuildHeaderLine("go", Provenance("1", "go-pgx", "\U{FEFF}", "s", "q", None)) + after) != Some(after)
  {
    hide AfterComment, BuildHeaderLine;
    var p := Provenance("1", "go-pgx", "\U{FEFF}", "s", "q", None);
    HeaderIsCommentIff("go", p, after);
    assert Fields(p)[2].1 == "\U{FEFF}" && '\U{FEFF}' in Fields(p)[2].1;
  }
}
