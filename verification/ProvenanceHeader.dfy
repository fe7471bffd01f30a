/** The provenance header line, its reader, and the file it heads. */
module ProvenanceHeader {
  import opened Wrappers
  import opened Text
  import opened HeaderFields

  const SENTINEL := "scythe:provenance"

  /** How many leading lines of a file a reader scans for the sentinel. */
  const SCAN_LINES := 20

  function CommentPrefix(language: string): string {
    if language in {"python", "ruby", "elixir"} then "#" else "//"
  }

  function HeaderSuffix(language: string): string {
    if language == "python" then "  # noqa: E501" else ""
  }

  datatype Provenance = Provenance(
    version: string, backend: string, engine: string, schema: string, queries: string, options: Option<string>)

  /** What a reader is meant to get back. */
  function Fields(p: Provenance): seq<(string, string)> {
    [("v", p.version), ("backend", p.backend), ("engine", p.engine), ("schema", p.schema), ("queries", p.queries)]
    + (if p.options.Some? then [("options", p.options.value)] else [])
  }

  function BuildHeaderLine(language: string, p: Provenance): string {
    var optionsField := if p.options.Some? then " options=" + Sanitize(p.options.value) else "";
    CommentPrefix(language) + " " + SENTINEL + " v=" + Sanitize(p.version) + " backend=" + Sanitize(p.backend)
    + " engine=" + Sanitize(p.engine) + " schema=" + Sanitize(p.schema) + " queries=" + Sanitize(p.queries)
    + optionsField + HeaderSuffix(language) + "\n"
  }

  // ---------- reading ----------

  /** Length of the leading run of characters that are not ASCII whitespace. */
  function WordLength(s: string): (n: nat)
    ensures n <= |s|
    ensures forall i :: 0 <= i < n ==> !IsAsciiWhitespace(s[i])
    ensures n < |s| ==> IsAsciiWhitespace(s[n])
  {
    if s == "" || IsAsciiWhitespace(s[0]) then 0 else 1 + WordLength(s[1..])
  }

  /** `split_ascii_whitespace`. */
  function Tokens(s: string): seq<string>
    decreases |s|
  {
    if s == "" then []
    else if IsAsciiWhitespace(s[0]) then Tokens(s[1..])
    else [s[..WordLength(s)]] + Tokens(s[WordLength(s)..])
  }

  /** Tokens with an `=`, split at the first one; values as they stand on the line. */
  function Pairs(tokens: seq<string>): seq<(string, string)> {
    if tokens == [] then []
    else
      var eq := FindChar(tokens[0], '=');
      (if eq.Some? then [(tokens[0][..eq.value], tokens[0][eq.value + 1..])] else []) + Pairs(tokens[1..])
  }

  /** The command-line verifier's reading of a header line, which leaves the values encoded. */
  function ParseEncodedFields(line: string): Option<seq<(string, string)>> {
    var at := IndexOf(line, SENTINEL);
    if at.None? then None else Some(Pairs(Tokens(Trim(line[at.value + |SENTINEL|..]))))
  }

  function DecodedField(field: (string, string)): (string, string) {
    (field.0, Decode(field.1))
  }

  /** The library's reading, with every value decoded. */
  function ParseHeaderFields(line: string): Option<seq<(string, string)>> {
    var encoded := ParseEncodedFields(line);
    if encoded.None? then None
    else Some(Decoded(encoded.value))
  }

  function Decoded(fields: seq<(string, string)>): (r: seq<(string, string)>)
    ensures |r| == |fields| && forall i :: 0 <= i < |r| ==> r[i] == DecodedField(fields[i])
  {
    seq(|fields|, i requires 0 <= i < |fields| => DecodedField(fields[i]))
  }

  function EncodedField(field: (string, string)): (string, string) {
    (field.0, Sanitize(field.1))
  }

  function Encoded(fields: seq<(string, string)>): (r: seq<(string, string)>)
    ensures |r| == |fields| && forall i :: 0 <= i < |r| ==> r[i] == EncodedField(fields[i])
  {
    seq(|fields|, i requires 0 <= i < |fields| => EncodedField(fields[i]))
  }

  // ---------- the line in one shape ----------

  function RenderFields(fields: seq<(string, string)>): string {
    if fields == [] then ""
    else RenderFields(fields[..|fields| - 1]) + (" " + RenderField(fields[|fields| - 1]))
  }

  function RenderField(field: (string, string)): string {
    field.0 + "=" + Sanitize(field.1)
  }

  lemma RenderMore(fields: seq<(string, string)>, field: (string, string))
    ensures RenderFields(fields + [field]) == RenderFields(fields) + (" " + RenderField(field))
  {
    hide Sanitize, RenderField;
    assert (fields + [field])[..|fields + [field]| - 1] == fields;
  }

  /** The line as built and the line with one more field rendered agree. */
  lemma MoreBuilt(open: string, fields: seq<(string, string)>, built: string, spelled: string, field: (string, string))
    requires built == open + RenderFields(fields) && spelled == " " + field.0 + "="
    ensures built + spelled + Sanitize(field.1) == open + RenderFields(fields + [field])
  {
    hide Sanitize, RenderFields;
    RenderMore(fields, field);
    var (r, v) := (RenderFields(fields), Sanitize(field.1));
    assert spelled + v == " " + RenderField(field);
    Assoc(built, spelled, v);
    Assoc(open, r, " " + RenderField(field));
  }

  lemma BuiltLine(language: string, p: Provenance)
    ensures BuildHeaderLine(language, p)
         == CommentPrefix(language) + " " + SENTINEL + RenderFields(Fields(p)) + HeaderSuffix(language) + "\n"
  {
    hide Sanitize, RenderField, RenderFields, CommentPrefix, HeaderSuffix;
    var open := CommentPrefix(language) + " " + SENTINEL;
    NothingRendered();
    assert open + "" == open;
    var (v, b, e, s, q) := (("v", p.version), ("backend", p.backend), ("engine", p.engine), ("schema", p.schema), ("queries", p.queries));
    var f1 := [] + [v];
    var f2 := f1 + [b];
    var f3 := f2 + [e];
    var f4 := f3 + [s];
    var f5 := f4 + [q];
    MoreBuilt(open, [], open, " v=", v);
    MoreBuilt(open, f1, open + RenderFields(f1), " backend=", b);
    MoreBuilt(open, f2, open + RenderFields(f2), " engine=", e);
    MoreBuilt(open, f3, open + RenderFields(f3), " schema=", s);
    MoreBuilt(open, f4, open + RenderFields(f4), " queries=", q);
    assert f5 == [v, b, e, s, q];
    if p.options.Some? {
      var o := ("options", p.options.value);
      MoreBuilt(open, f5, open + RenderFields(f5), " options=", o);
      assert Fields(p) == f5 + [o];
      Assoc(open + RenderFields(f5), " options=", Sanitize(o.1));
    } else {
      assert Fields(p) == f5;
    }
  }

  lemma NothingRendered()
    ensures RenderFields([]) == ""
  {
  }

  // ---------- one comment line ----------

  predicate HeaderChar(c: char) {
    LineSafe(c) || c == ' '
  }

  predicate KeySafe(key: string) {
    key != "" && forall c :: c in key ==> LineSafe(c) && c != '='
  }

  lemma FieldKeysAreSafe(p: Provenance)
    ensures forall i :: 0 <= i < |Fields(p)| ==> KeySafe(Fields(p)[i].0)
  {
  }

  lemma {:induction false} RenderedChars(fields: seq<(string, string)>)
    requires forall i :: 0 <= i < |fields| ==> KeySafe(fields[i].0)
    ensures forall c :: c in RenderFields(fields) ==> HeaderChar(c)
    decreases |fields|
  {
    if fields != [] {
      hide Sanitize, IsWhitespace, IsControl;
      var last := fields[|fields| - 1];
      SanitizedIsLineSafe(last.1);
      RenderedChars(fields[..|fields| - 1]);
      EqualsIsSafe();
    }
  }

  lemma EqualsIsSafe()
    ensures LineSafe('=') && !IsAsciiWhitespace('=')
  {
  }

  /**
   Whatever the field texts hold, the header is one line of comment: it opens with the language's
   comment token and holds no line terminator, control character or unusual blank before its end.
   */
  lemma HeaderIsOneCommentLine(language: string, p: Provenance)
    ensures var h := BuildHeaderLine(language, p);
            && CommentPrefix(language) + " " + SENTINEL <= h
            && h[|h| - 1] == '\n'
            && forall i :: 0 <= i < |h| - 1 ==> HeaderChar(h[i])
  {
    hide Sanitize, Fields, RenderFields, HeaderChar, CommentPrefix, HeaderSuffix, BuildHeaderLine;
    BuiltLine(language, p);
    FieldKeysAreSafe(p);
    RenderedChars(Fields(p));
    var a, b, c := CommentPrefix(language) + " " + SENTINEL, RenderFields(Fields(p)), HeaderSuffix(language);
    FixedChars(language);
    SafeConcat(a, b);
    SafeConcat(a + b, c);
    var (h, line) := (BuildHeaderLine(language, p), a + b + c);
    assert h == line + "\n";
    forall i | 0 <= i < |h| - 1 ensures HeaderChar(h[i]) {
      assert h[i] == line[i] && line[i] in line;
    }
  }

  lemma FixedChars(language: string)
    ensures forall c :: c in CommentPrefix(language) + " " + SENTINEL ==> HeaderChar(c)
    ensures forall c :: c in HeaderSuffix(language) ==> HeaderChar(c)
  {
  }

  lemma SafeConcat(x: string, y: string)
    requires forall c :: c in x ==> HeaderChar(c)
    requires forall c :: c in y ==> HeaderChar(c)
    ensures forall c :: c in x + y ==> HeaderChar(c)
  {
    hide HeaderChar;
  }

  // ---------- reading it back ----------

  lemma TokenThenRest(word: string, rest: string)
    requires word != "" && (forall c :: c in word ==> !IsAsciiWhitespace(c))
    requires rest == "" || IsAsciiWhitespace(rest[0])
    ensures Tokens(word + rest) == [word] + Tokens(rest)
  {
    var s := word + rest;
    assert forall i :: 0 <= i < |word| ==> s[i] in word;
    assert rest != "" ==> s[|word|] == rest[0];
    assert WordLength(s) == |word|;
    assert s[..|word|] == word && s[|word|..] == rest;
  }

  lemma RenderedWord(field: (string, string))
    requires KeySafe(field.0)
    ensures RenderField(field) != "" && forall c :: c in RenderField(field) ==> !IsAsciiWhitespace(c)
    ensures Pairs([RenderField(field)]) == [EncodedField(field)]
  {
    hide Sanitize;
    var word := RenderField(field);
    EqualsIsSafe();
    SanitizedIsLineSafe(field.1);
    assert forall c :: LineSafe(c) ==> !IsAsciiWhitespace(c);
    var n := |field.0|;
    assert word == field.0 + ("=" + Sanitize(field.1));
    FoundChar(field.0, '=', Sanitize(field.1));
    assert word[..n] == field.0 && word[n + 1..] == Sanitize(field.1);
  }

  lemma PairsOfCons(token: string, rest: seq<string>)
    ensures Pairs([token] + rest) == Pairs([token]) + Pairs(rest)
  {
    assert ([token] + rest)[1..] == rest && [token][1..] == [];
  }

  lemma OneFieldReadsBack(field: (string, string), after: string)
    requires KeySafe(field.0) && (after == "" || IsAsciiWhitespace(after[0]))
    ensures Pairs(Tokens(" " + RenderField(field) + after)) == [EncodedField(field)] + Pairs(Tokens(after))
  {
    hide Sanitize, Pairs, WordLength, RenderField, KeySafe, Tokens, IsAsciiWhitespace;
    var word := RenderField(field);
    RenderedWord(field);
    assert " " + word + after == " " + (word + after);
    SkipBlank(word + after);
    TokenThenRest(word, after);
    PairsOfCons(word, Tokens(after));
  }

  /** Tokenizing rendered fields gives them back encoded, then goes on with whatever follows. */
  lemma {:induction false} FieldsReadBack(fields: seq<(string, string)>, rest: string)
    requires forall i :: 0 <= i < |fields| ==> KeySafe(fields[i].0)
    requires rest == "" || IsAsciiWhitespace(rest[0])
    ensures Pairs(Tokens(RenderFields(fields) + rest)) == Encoded(fields) + Pairs(Tokens(rest))
    decreases |fields|
  {
    hide Sanitize, Pairs, WordLength, RenderField, KeySafe, Tokens, IsAsciiWhitespace;
    if fields == [] {
      assert RenderFields(fields) + rest == rest;
    } else {
      var init, last := fields[..|fields| - 1], fields[|fields| - 1];
      var word := " " + RenderField(last);
      OneFieldReadsBack(last, rest);
      BlankFirst(RenderField(last) + rest);
      Assoc(" ", RenderField(last), rest);
      FieldsReadBack(init, word + rest);
      Assoc(RenderFields(init), word, rest);
      Assoc(Encoded(init), [EncodedField(last)], Pairs(Tokens(rest)));
      assert Encoded(init) + [EncodedField(last)] == Encoded(fields);
    }
  }

  lemma BlankFirst(s: string)
    ensures IsAsciiWhitespace((" " + s)[0])
  {
  }

  lemma PairsWithoutEquals(token: string)
    requires '=' !in token
    ensures Pairs([token]) == []
  {
  }

  lemma SuffixHasNoFields(language: string)
    ensures Pairs(Tokens(HeaderSuffix(language))) == []
    ensures HeaderSuffix(language) == "" || IsAsciiWhitespace(HeaderSuffix(language)[0])
  {
    hide Pairs, Tokens;
    NoTokens();
    if language == "python" {
      NoqaTokens();
      PairsWithoutEquals("#");
      PairsWithoutEquals("noqa:");
      PairsWithoutEquals("E501");
      PairsOfCons("#", ["noqa:"] + ["E501"]);
      PairsOfCons("noqa:", ["E501"]);
    }
  }

  lemma NoqaTokens()
    ensures Tokens("  # noqa: E501") == ["#"] + (["noqa:"] + ["E501"])
  {
    hide Tokens, WordLength;
    var (t1, t2, t3) := ("#", "noqa:", "E501");
    NoTokens();
    TokenThenRest(t3, "");
    assert t3 + "" == t3;
    SkipBlank(t3);
    TokenThenRest(t2, " " + t3);
    SkipBlank(t2 + (" " + t3));
    TokenThenRest(t1, " " + (t2 + (" " + t3)));
    var all := t1 + (" " + (t2 + (" " + t3)));
    SkipBlank(all);
    SkipBlank(" " + all);
    assert "  # noqa: E501" == " " + (" " + all);
    assert [t3] + [] == [t3];
  }

  lemma NoTokens()
    ensures Tokens("") == [] && Pairs([]) == []
  {
  }

  lemma {:induction false} RenderStarts(fields: seq<(string, string)>)
    requires fields != [] && fields[0].0 != ""
    ensures var r := RenderFields(fields); |r| > 1 && r[0] == ' ' && r[1] == fields[0].0[0]
    decreases |fields|
  {
    hide Sanitize;
    if |fields| == 1 {
      assert fields[..0] == [];
    } else {
      RenderStarts(fields[..|fields| - 1]);
    }
  }

  lemma FieldEndsSafe(field: (string, string))
    ensures RenderField(field) != "" && LineSafe(RenderField(field)[|RenderField(field)| - 1])
  {
    hide Sanitize, LineSafe;
    SanitizedIsLineSafe(field.1);
    EqualsIsSafe();
    var v := Sanitize(field.1);
    assert v != "" ==> v[|v| - 1] in v;
  }

  /** The field tail between the sentinel and the newline, as the reader trims it. */
  lemma TrimmedTail(language: string, p: Provenance, newline: string)
    requires newline in {"", "\n"}
    ensures var tail := RenderFields(Fields(p)) + HeaderSuffix(language);
            " " + Trim(tail + newline) == tail
  {
    hide Sanitize, IsWhitespace, IsControl, RenderField, TrimBy;
    var fields := Fields(p);
    var last := fields[|fields| - 1];
    RenderStarts(fields);
    FieldEndsSafe(last);
    SuffixEndsSafe();
    LettersAreSafe();
    var tail := RenderFields(fields) + HeaderSuffix(language);
    var body := tail[1..];
    assert body[0] == 'v';
    assert LineSafe(body[|body| - 1]) by {
      if language != "python" {
        var text := RenderField(last);
        assert body[|body| - 1] == text[|text| - 1];
      }
    }
    assert tail + newline == " " + body + newline;
    TrimOfPadded(" ", body, newline, IsWhitespace);
  }

  lemma SuffixEndsSafe()
    ensures LineSafe("  # noqa: E501"[13])
  {
  }

  lemma LettersAreSafe()
    ensures !IsWhitespace('v') && IsWhitespace(' ') && IsWhitespace('\n')
  {
  }

  /**
   The header round trip, for all field texts, either comment token and suffix, five or six
   fields, with or without the line's newline, and after any text that lacks the sentinel.
   */
  lemma HeaderRoundTrip(language: string, p: Provenance, before: string, newline: string)
    requires !Contains(before, SENTINEL) && newline in {"", "\n"}
    ensures var h := BuildHeaderLine(language, p);
            && ParseEncodedFields(before + h[..|h| - 1] + newline) == Some(Encoded(Fields(p)))
            && ParseHeaderFields(before + h[..|h| - 1] + newline) == Some(Fields(p))
  {
    hide Sanitize, Fields, RenderFields, Tokens, Pairs, HeaderSuffix, Trim, IndexOf, Contains, BuildHeaderLine, CommentPrefix, Encoded, Decoded;
    BuiltLine(language, p);
    var h := BuildHeaderLine(language, p);
    var tail := RenderFields(Fields(p)) + HeaderSuffix(language);
    var line := before + h[..|h| - 1] + newline;
    var open := CommentPrefix(language) + " ";
    var at := |before| + |open|;
    assert line == before + open + SENTINEL + (tail + newline);
    SentinelPosition(language, before, tail + newline);
    assert line[at + |SENTINEL|..] == tail + newline;
    TailReadsBack(language, p, newline);
    DecodedIsOriginal(Fields(p));
  }

  lemma TailReadsBack(language: string, p: Provenance, newline: string)
    requires newline in {"", "\n"}
    ensures Pairs(Tokens(Trim(RenderFields(Fields(p)) + HeaderSuffix(language) + newline))) == Encoded(Fields(p))
  {
    hide Sanitize, Fields, RenderFields, Tokens, Pairs, HeaderSuffix, Trim;
    var tail := RenderFields(Fields(p)) + HeaderSuffix(language);
    TrimmedTail(language, p, newline);
    SkipBlank(Trim(tail + newline));
    FieldKeysAreSafe(p);
    SuffixHasNoFields(language);
    FieldsReadBack(Fields(p), HeaderSuffix(language));
    assert Encoded(Fields(p)) + [] == Encoded(Fields(p));
  }

  lemma DecodedIsOriginal(fields: seq<(string, string)>)
    ensures Decoded(Encoded(fields)) == fields
  {
    hide Sanitize, Decode;
    var encoded := Encoded(fields);
    forall i | 0 <= i < |fields| ensures Decoded(encoded)[i] == fields[i] {
      DecodeSanitize(fields[i].1);
    }
  }

  lemma SkipBlank(s: string)
    ensures Tokens(" " + s) == Tokens(s)
  {
    assert (" " + s)[1..] == s;
  }

  lemma SentinelPosition(language: string, before: string, after: string)
    requires !Contains(before, SENTINEL)
    ensures IndexOf(before + (CommentPrefix(language) + " ") + SENTINEL + after, SENTINEL)
         == Some(|before| + |CommentPrefix(language) + " "|)
  {
    hide IndexOf, Contains, SENTINEL;
    var open := CommentPrefix(language) + " ";
    var line := before + open + SENTINEL + after;
    var at := |before| + |open|;
    assert open == "# " || open == "// ";
    assert line[at..] == SENTINEL + after;
    assert before + open + SENTINEL + after == before + (open + (SENTINEL + after));
    forall i | 0 <= i < at ensures !OccursAt(line, SENTINEL, i) {
      NoEarlierSentinel(before, open, SENTINEL + after, i);
    }
    IndexOfIs(line, SENTINEL, at);
  }

  lemma NoEarlierSentinel(before: string, open: string, after: string, i: nat)
    requires !Contains(before, SENTINEL) && i < |before| + |open|
    requires (open == "# " || open == "// ") && |after| >= |SENTINEL|
    ensures !OccursAt(before + (open + after), SENTINEL, i)
  {
    assert |SENTINEL| == 17;
    hide Contains, SENTINEL;
    var here := (before + (open + after))[i..];
    assert !OccursAt(before, SENTINEL, i);
    if i + |SENTINEL| <= |before| {
      assert before[i..][..|SENTINEL|] == here[..|SENTINEL|];
    } else {
      var k := if i < |before| then |before| - i else 0;
      assert here[k] == open[i + k - |before|];
      NotHere(here, k);
    }
  }

  lemma NotHere(here: string, k: nat)
    requires k < |SENTINEL| && k < |here| && here[k] in {'#', '/', ' '}
    ensures !(SENTINEL <= here)
  {
    assert forall c :: c in SENTINEL ==> c !in {'#', '/', ' '};
    assert SENTINEL[k] in SENTINEL;
  }

  // ---------- the file ----------

  function AssembleFile(preamble: string, header: string, body: string): string {
    var separator := if preamble == "" then "" else "\n";
    preamble + header + separator + body
  }

  /** `str::lines`: a carriage return before the newline goes with it. */
  function Lines(s: string): seq<string>
    decreases |s|
  {
    if s == "" then []
    else
      var newline := FindChar(s, '\n');
      if newline.None? then [s] else [WithoutCarriageReturn(s[..newline.value])] + Lines(s[newline.value + 1..])
  }

  function WithoutCarriageReturn(line: string): string {
    if line != "" && line[|line| - 1] == '\r' then line[..|line| - 1] else line
  }

  /** The first of the leading `window` lines that carries the sentinel, parsed. */
  function FirstHeader(lines: seq<string>, window: nat): Option<seq<(string, string)>> {
    if lines == [] || window == 0 then None
    else if Contains(lines[0], SENTINEL) then ParseEncodedFields(lines[0])
    else FirstHeader(lines[1..], window - 1)
  }

  function ReadProvenance(content: string): Option<seq<(string, string)>> {
    FirstHeader(Lines(content), SCAN_LINES)
  }

  function Newlines(s: string): nat {
    if s == "" then 0 else (if s[0] == '\n' then 1 else 0) + Newlines(s[1..])
  }

  lemma {:induction false} FirstNewline(s: string) returns (n: nat)
    requires Newlines(s) > 0
    ensures n < |s| && s[n] == '\n' && '\n' !in s[..n]
    ensures Newlines(s[n + 1..]) == Newlines(s) - 1
  {
    if s[0] == '\n' {
      n := 0;
    } else {
      var m := FirstNewline(s[1..]);
      n := m + 1;
      assert s[1..][m + 1..] == s[n + 1..];
      assert s[..n] == [s[0]] + s[1..][..m];
    }
  }

  lemma {:induction false} NoNewlines(s: string)
    requires Newlines(s) == 0
    ensures '\n' !in s
  {
    if s != "" {
      NoNewlines(s[1..]);
    }
  }

  lemma LineSplits(line: string, rest: string)
    requires '\n' !in line
    ensures Lines(line + "\n" + rest) == [WithoutCarriageReturn(line)] + Lines(rest)
  {
    var s := line + "\n" + rest;
    assert s == line + ("\n" + rest);
    FoundChar(line, '\n', rest);
    assert s[..|line|] == line && s[|line| + 1..] == rest;
  }

  /** Both line terminators end a line and are not part of it; a lone carriage return is. */
  lemma LineEndsAre(line: string, rest: string)
    requires '\n' !in line
    ensures Lines(line + "\r" + "\n" + rest) == [line] + Lines(rest)
    ensures line == "" || line[|line| - 1] != '\r' ==> Lines(line + "\n" + rest) == [line] + Lines(rest)
    ensures line != "" ==> Lines(line) == [line]
  {
    hide Lines;
    LineSplits(line, rest);
    LineSplits(line + "\r", rest);
    assert (line + "\r")[..|line|] == line;
    if line != "" {
      UnendedLine(line);
    }
  }

  lemma UnendedLine(line: string)
    requires '\n' !in line && line != ""
    ensures Lines(line) == [line]
  {
  }

  lemma PartLacksSentinel(s: string, i: nat, j: nat)
    requires i <= j <= |s| && !Contains(s, SENTINEL)
    ensures !Contains(s[i..j], SENTINEL)
  {
    hide Contains, SENTINEL;
    var part := s[i..j];
    forall k ensures !OccursAt(part, SENTINEL, k) {
      assert !OccursAt(s, SENTINEL, i + k);
      if 0 <= k && k + |SENTINEL| <= |part| {
        assert part[k..][..|SENTINEL|] == s[i + k..][..|SENTINEL|];
      }
    }
  }

  /**
   A generated file gives its provenance back exactly when the header is within the scanned lines:
   whatever the body, and whatever preamble precedes the header as long as it lacks the sentinel.
   */
  lemma FileRoundTrip(language: string, p: Provenance, preamble: string, body: string)
    requires !Contains(preamble, SENTINEL)
    ensures ReadProvenance(AssembleFile(preamble, BuildHeaderLine(language, p), body))
         == if Newlines(preamble) < 20 then Some(Encoded(Fields(p))) else None
  {
    hide BuildHeaderLine, Newlines, Lines, FirstHeader, Contains, Fields, Encoded;
    var separator := if preamble == "" then "" else "\n";
    var h := BuildHeaderLine(language, p);
    assert AssembleFile(preamble, h, body) == preamble + (h + (separator + body));
    ReadAfter(language, p, preamble, separator + body, SCAN_LINES);
  }

  lemma {:induction false} ReadAfter(language: string, p: Provenance, preamble: string, body: string, window: nat)
    requires !Contains(preamble, SENTINEL)
    ensures FirstHeader(Lines(preamble + (BuildHeaderLine(language, p) + body)), window)
         == if Newlines(preamble) < window then Some(Encoded(Fields(p))) else None
    decreases |preamble|
  {
    hide Newlines, Lines, Fields, Encoded, BuildHeaderLine, Contains, ParseEncodedFields;
    var h := BuildHeaderLine(language, p);
    if window == 0 {
    } else if Newlines(preamble) == 0 {
      NoNewlines(preamble);
      HeaderLineIsRead(language, p, preamble, body, window);
    } else {
      var n := FirstNewline(preamble);
      var line, rest := preamble[..n], preamble[n + 1..];
      assert preamble + (h + body) == line + "\n" + (rest + (h + body));
      LineSplits(line, rest + (h + body));
      PartLacksSentinel(preamble, 0, |WithoutCarriageReturn(line)|);
      assert WithoutCarriageReturn(line) == preamble[0..|WithoutCarriageReturn(line)|];
      PartLacksSentinel(preamble, n + 1, |preamble|);
      assert preamble[n + 1..|preamble|] == rest;
      ReadAfter(language, p, rest, body, window - 1);
    }
  }

  lemma HeaderLineIsRead(language: string, p: Provenance, before: string, body: string, window: nat)
    requires !Contains(before, SENTINEL) && '\n' !in before && window > 0
    ensures FirstHeader(Lines(before + (BuildHeaderLine(language, p) + body)), window) == Some(Encoded(Fields(p)))
  {
    hide BuildHeaderLine, Lines, Fields, Encoded, ParseEncodedFields, ParseHeaderFields, Contains;
    var h := BuildHeaderLine(language, p);
    HeaderLineEnds(language, p);
    var line := before + h[..|h| - 1];
    assert before + (h + body) == line + "\n" + body;
    LineSplits(line, body);
    assert line[|line| - 1] == h[|h| - 2];
    HeaderRoundTrip(language, p, before, "");
    assert line + "" == line;
    ParsedMeansContained(line);
  }

  /** The header is more than its newline and holds no other line terminator. */
  lemma HeaderLineEnds(language: string, p: Provenance)
    ensures var h := BuildHeaderLine(language, p);
            |h| > 1 && h[|h| - 1] == '\n' && '\n' !in h[..|h| - 1] && h[|h| - 2] != '\r'
  {
    hide BuildHeaderLine, HeaderChar;
    HeaderIsOneCommentLine(language, p);
    ReturnsAreUnsafe();
  }

  lemma ReturnsAreUnsafe()
    ensures !HeaderChar('\n') && !HeaderChar('\r')
  {
  }

  lemma ParsedMeansContained(line: string)
    requires ParseEncodedFields(line).Some?
    ensures Contains(line, SENTINEL)
  {
  }

  // ---------- what a file looks like ----------

  /** Taking the header line out of a file leaves what the file was without one: the preamble, a blank line after it if there is one, and the body. */
  lemma WithoutHeader(preamble: string, header: string, body: string)
    ensures var file := AssembleFile(preamble, header, body);
            && preamble + header <= file
            && preamble + file[|preamble| + |header|..] == if preamble == "" then body else preamble + "\n" + body
  {
    var file := AssembleFile(preamble, header, body);
    assert file == preamble + header + (if preamble == "" then body else "\n" + body);
  }

  /** The line, character for character around the encoded values. */
  lemma HeaderSpelled(language: string, p: Provenance)
    ensures BuildHeaderLine(language, p)
         == (if language == "python" || language == "ruby" || language == "elixir" then "#" else "//")
            + " " + "scythe:provenance" + " v=" + Sanitize(p.version) + " backend=" + Sanitize(p.backend)
            + " engine=" + Sanitize(p.engine) + " schema=" + Sanitize(p.schema) + " queries=" + Sanitize(p.queries)
            + (if p.options.Some? then " options=" + Sanitize(p.options.value) else "")
            + (if language == "python" then "  # noqa: E501" else "") + "\n"
  {
    hide Sanitize;
  }

  // ---------- the drift check ----------

  /** What the verifier's field-by-field assignment holds for a key: the last value given. */
  function LastValue(fields: seq<(string, string)>, key: string): Option<string> {
    if fields == [] then None
    else if fields[|fields| - 1].0 == key then Some(fields[|fields| - 1].1)
    else LastValue(fields[..|fields| - 1], key)
  }

  /** A value given again replaces the one before. */
  lemma LaterValueWins(fields: seq<(string, string)>, key: string, value: string, other: string)
    ensures LastValue(fields + [(key, value)], key) == Some(value)
    ensures other != key ==> LastValue(fields + [(key, value)], other) == LastValue(fields, other)
  {
    var all := fields + [(key, value)];
    assert all[..|all| - 1] == fields;
  }

  /**
   The engine-drift verdict is right: comparing the encoded field of the file with the encoding of
   the configured engine decides whether the engines are the same text, whatever they hold.
   */
  lemma EngineDriftIsDecided(language: string, p: Provenance, preamble: string, body: string, engine: string)
    requires !Contains(preamble, SENTINEL) && Newlines(preamble) < 20
    ensures var read := ReadProvenance(AssembleFile(preamble, BuildHeaderLine(language, p), body));
            read.Some? && (LastValue(read.value, "engine") == Some(Sanitize(engine)) <==> p.engine == engine)
  {
    hide BuildHeaderLine, Newlines, ReadProvenance, Contains, Sanitize, AssembleFile;
    FileRoundTrip(language, p, preamble, body);
    EngineField(p);
    SanitizeInjective(p.engine, engine);
  }

  lemma EngineField(p: Provenance)
    ensures LastValue(Encoded(Fields(p)), "engine") == Some(Sanitize(p.engine))
  {
    hide Sanitize, LastValue;
    var fields := Encoded(Fields(p));
    LastValueAt(fields, "engine", 2);
  }

  lemma {:induction false} LastValueAt(fields: seq<(string, string)>, key: string, i: nat)
    requires i < |fields| && fields[i].0 == key && forall j :: i < j < |fields| ==> fields[j].0 != key
    ensures LastValue(fields, key) == Some(fields[i].1)
    decreases |fields|
  {
    if |fields| > i + 1 {
      LastValueAt(fields[..|fields| - 1], key, i);
    }
  }
}
