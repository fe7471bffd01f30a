/** `rust_raw_string_literal`: widening the delimiter of a raw string until the SQL cannot close it. */
module RustRawStrings {
  import opened Wrappers
  import opened Text
  import opened HostNewlines

  function Hashes(n: nat): (r: string)
    ensures |r| == n
  {
    Repeat('#', n)
  }

  /** A quote and `n` hashes: what closes a raw string opened with `n` hashes. */
  function Closer(n: nat): string {
    "\"" + Hashes(n)
  }

  function LeadingHashes(s: string): (n: nat)
    ensures n <= |s|
  {
    if s != "" && s[0] == '#' then 1 + LeadingHashes(s[1..]) else 0
  }

  /** The longest run of `#` directly after a quote. */
  function LongestRun(sql: string): (n: nat)
    ensures sql != "" ==> n < |sql|
    ensures sql == "" ==> n == 0
  {
    if sql == "" then 0
    else
      var here := if sql[0] == '\"' then LeadingHashes(sql[1..]) else 0;
      var later := LongestRun(sql[1..]);
      if here >= later then here else later
  }

  method RustRawStringLiteral(sql: string) returns (literal: string)
    ensures literal == RawLiteral(sql, LongestRun(sql) + 1)
  {
    var count := 1;
    while true
      invariant 1 <= count <= LongestRun(sql) + 1
      decreases LongestRun(sql) + 1 - count
    {
      var marker := "\"" + Repeat('#', count);
      MarkerOccurs(sql, count);
      if !Contains(sql, marker) {
        break;
      }
      count := count + 1;
    }
    var delim := Repeat('#', count);
    literal := "r" + delim + "\"" + sql + "\"" + delim;
  }

  // ---------- which delimiters the SQL holds ----------

  lemma {:induction false} LeadingHashesAre(s: string, n: nat)
    ensures Hashes(n) <= s <==> n <= LeadingHashes(s)
    decreases |s|
  {
    if n == 0 {
      assert Hashes(0) == "";
    } else if s == "" {
    } else if s[0] == '#' {
      LeadingHashesAre(s[1..], n - 1);
      assert Hashes(n) == "#" + Hashes(n - 1);
      assert s == "#" + s[1..];
      if Hashes(n) <= s {
        assert Hashes(n - 1) == Hashes(n)[1..] && s[1..][..n - 1] == s[..n][1..];
      }
    } else {
      assert Hashes(n)[0] == '#';
    }
  }

  /** The SQL holds the closer of width `n` exactly when its longest run is that long. */
  lemma {:induction false} MarkerOccurs(sql: string, n: nat)
    requires n > 0
    ensures Contains(sql, Closer(n)) <==> n <= LongestRun(sql)
    decreases |sql|
  {
    if sql == "" {
      assert forall i :: !OccursAt(sql, Closer(n), i);
    } else {
      MarkerOccurs(sql[1..], n);
      LeadingHashesAre(sql[1..], n);
      CloserAtStart(sql, n);
      ContainsShift(sql, Closer(n));
    }
  }

  lemma CloserAtStart(s: string, n: nat)
    requires s != ""
    ensures Closer(n) <= s <==> s[0] == '\"' && Hashes(n) <= s[1..]
  {
    assert s == [s[0]] + s[1..];
    if Closer(n) <= s {
      assert Closer(n)[1..] == Hashes(n) && s[1..][..n] == s[..n + 1][1..];
      assert Closer(n)[0] == s[0];
    }
    if s[0] == '\"' && Hashes(n) <= s[1..] {
      assert s[..n + 1] == Closer(n);
    }
  }

  // ---------- reading the literal back ----------

  /** Raw strings admit at most this many hashes. */
  const MAX_HASHES := 255

  /**
   A raw string literal and what follows it, line ends read (Rust Reference, "Raw string literals"):
   the body ends at the first quote followed by as many hashes as opened it, and holds no carriage return.
   */
  function LexRaw(text: string): Option<(string, string)> {
    if text == "" || text[0] != 'r' then None
    else
      var n := LeadingHashes(text[1..]);
      var quoted := text[1 + n..];
      if n > MAX_HASHES || quoted == "" || quoted[0] != '\"' then None else LexRawBody(n, quoted[1..])
  }

  function LexRawBody(n: nat, body: string): Option<(string, string)> {
    var end := IndexOf(body, Closer(n));
    if end.None? || '\r' in body[..end.value] then None
    else Some((body[..end.value], body[end.value + |Closer(n)|..]))
  }

  lemma {:induction false} LeadingHashesOf(n: nat, after: string)
    requires after != "" && after[0] != '#'
    ensures LeadingHashes(Hashes(n) + after) == n
  {
    if n == 0 {
      assert Hashes(0) + after == after;
    } else {
      assert Hashes(n) + after == "#" + (Hashes(n - 1) + after);
      assert ("#" + (Hashes(n - 1) + after))[1..] == Hashes(n - 1) + after;
      LeadingHashesOf(n - 1, after);
    }
  }

  /** No closing delimiter starts in the SQL, not even one that runs on into the real closer. */
  lemma FirstCloser(sql: string, rest: string)
    ensures var n := LongestRun(sql) + 1;
            IndexOf(sql + Closer(n) + rest, Closer(n)) == Some(|sql|)
  {
    hide Hashes, LongestRun, Contains;
    var n := LongestRun(sql) + 1;
    var body := sql + Closer(n) + rest;
    MarkerOccurs(sql, n);
    assert body[|sql|..] == Closer(n) + rest;
    forall i | 0 <= i < |sql| ensures !OccursAt(body, Closer(n), i) {
      assert !OccursAt(sql, Closer(n), i);
      if i + n + 1 <= |sql| {
        assert sql[i..][..n + 1] == body[i..][..n + 1];
      } else {
        assert body[i..][|sql| - i] == '\"';
        HashesAreHashes(n, |sql| - i);
      }
    }
    IndexOfIs(body, Closer(n), |sql|);
  }

  lemma HashesAreHashes(n: nat, k: nat)
    requires 0 < k <= n
    ensures |Closer(n)| == n + 1 && Closer(n)[k] == '#'
  {
  }

  /** How the lexer takes an opening delimiter apart. */
  lemma OpensRaw(n: nat, body: string)
    ensures var text := "r" + Hashes(n) + ("\"" + body);
            && LeadingHashes(text[1..]) == n
            && |text| > 1 + n && text[1 + n..] == "\"" + body
            && text[1 + n..][1..] == body
  {
    hide Hashes, LeadingHashes;
    var text := "r" + Hashes(n) + ("\"" + body);
    LeadingHashesOf(n, "\"" + body);
    assert text[1..] == Hashes(n) + ("\"" + body);
  }

  function RawLiteral(sql: string, n: nat): string {
    "r" + Hashes(n) + "\"" + sql + "\"" + Hashes(n)
  }

  lemma LiteralShape(sql: string, n: nat, rest: string)
    ensures RawLiteral(sql, n) + rest == "r" + Hashes(n) + ("\"" + (sql + Closer(n) + rest))
  {
    hide Hashes;
  }

  /** Text whose line ends are read already. */
  lemma ReadLiteralLexes(sql: string, rest: string)
    ensures LexRaw(RawLiteral(sql, LongestRun(sql) + 1) + rest)
         == if LongestRun(sql) < MAX_HASHES && '\r' !in sql then Some((sql, rest)) else None
  {
    hide Hashes, LongestRun, LeadingHashes, RawLiteral, LexRawBody;
    var n := LongestRun(sql) + 1;
    LiteralShape(sql, n, rest);
    OpensRaw(n, sql + Closer(n) + rest);
    BodyReadsBack(sql, rest);
  }

  lemma BodyReadsBack(sql: string, rest: string)
    ensures var n := LongestRun(sql) + 1;
            LexRawBody(n, sql + Closer(n) + rest) == if '\r' in sql then None else Some((sql, rest))
  {
    hide Hashes, LongestRun, IndexOf;
    var n := LongestRun(sql) + 1;
    var body := sql + Closer(n) + rest;
    FirstCloser(sql, rest);
    assert body[..|sql|] == sql && body[|sql| + |Closer(n)|..] == rest;
  }

  /** With any narrower delimiter the literal ends inside the SQL. */
  lemma NarrowerEndsInside(sql: string, n: nat, rest: string)
    requires 0 < n <= LongestRun(sql)
    ensures var r := LexRaw(RawLiteral(sql, n) + rest); r.Some? ==> |r.value.0| < |sql| && '\r' !in r.value.0
  {
    hide Hashes, LongestRun, LeadingHashes, RawLiteral;
    var body := sql + Closer(n) + rest;
    LiteralShape(sql, n, rest);
    OpensRaw(n, body);
    MarkerOccurs(sql, n);
    var at := IndexOf(sql, Closer(n)).value;
    assert sql[at..][..n + 1] == body[at..][..n + 1];
    assert OccursAt(body, Closer(n), at);
    var end := IndexOf(body, Closer(n));
    assert end.Some? && end.value <= at < |sql|;
    assert |body[..end.value]| < |sql|;
  }

  // ---------- line ends ----------

  lemma {:induction false} HashesSurviveNewlines(s: string)
    ensures LeadingHashes(ReadNewlines(false, s)) == LeadingHashes(s)
  {
    hide ReadNewlines;
    FirstRead(false, s);
    if s != "" && s[0] == '#' {
      assert s == "#" + s[1..];
      OtherIsKept(false, "#", s[1..]);
      HashesSurviveNewlines(s[1..]);
    }
  }

  /** Reading line ends changes no run of hashes after a quote. */
  lemma {:induction false} RunSurvivesNewlines(s: string)
    ensures LongestRun(ReadNewlines(false, s)) == LongestRun(s)
    decreases |s|
  {
    hide LeadingHashes;
    if s != "" {
      var tail := s[1..];
      if s[0] == '\r' && |s| > 1 && s[1] == '\n' {
        RunSurvivesNewlines(s[2..]);
        assert tail[1..] == s[2..];
      } else {
        RunSurvivesNewlines(tail);
        HashesSurviveNewlines(tail);
      }
    }
  }

  lemma NewlinesOfRaw(sql: string, n: nat, rest: string)
    ensures ReadNewlines(false, RawLiteral(sql, n) + rest) == RawLiteral(ReadNewlines(false, sql), n) + ReadNewlines(false, rest)
  {
    hide ReadNewlines, Hashes;
    var (open, close) := ("r" + Hashes(n) + "\"", "\"" + Hashes(n));
    NoReturnInDelimiters(n);
    assert RawLiteral(sql, n) + rest == open + (sql + (close + rest));
    assert open[|open| - 1] == '\"' && close[|close| - 1] in close && close[0] == '\"';
    NewlinesOfConcat(false, open, sql + (close + rest));
    NewlinesOfConcat(false, sql, close + rest);
    NewlinesOfConcat(false, close, rest);
    NoReturnIsKept(false, open);
    NoReturnIsKept(false, close);
    var (sqlRead, restRead) := (ReadNewlines(false, sql), ReadNewlines(false, rest));
    assert RawLiteral(sqlRead, n) + restRead == open + (sqlRead + (close + restRead));
  }

  lemma NoReturnInDelimiters(n: nat)
    ensures '\r' !in "r" + Hashes(n) + "\"" && '\r' !in "\"" + Hashes(n)
  {
  }

  /**
   The literal is refused when the SQL needs more than 255 hashes or holds a carriage return that no
   newline follows. Otherwise it compiles to the SQL with its line ends read, whatever follows it,
   so it is the SQL if and only if that needs few enough hashes and holds no carriage return.
   */
  lemma RawLiteralReadsBack(sql: string, rest: string)
    ensures var r := LexRaw(ReadNewlines(false, RawLiteral(sql, LongestRun(sql) + 1) + rest));
            && r == (if LongestRun(sql) >= 255 || HasLoneReturn(sql) then None
                     else Some((ReadNewlines(false, sql), ReadNewlines(false, rest))))
            && (r == Some((sql, ReadNewlines(false, rest))) <==> LongestRun(sql) < 255 && '\r' !in sql)
  {
    hide ReadNewlines, LongestRun, RawLiteral, LexRaw, HasLoneReturn, Contains;
    NewlinesOfRaw(sql, LongestRun(sql) + 1, rest);
    RunSurvivesNewlines(sql);
    ReadLiteralLexes(ReadNewlines(false, sql), ReadNewlines(false, rest));
    LoneReturnsStay(sql);
    if '\r' !in sql {
      NoReturnIsKept(false, sql);
      NoReturnNoLone(sql);
    }
  }

  /** Widening is minimal: with any narrower delimiter the literal does not read back as the SQL. */
  lemma NarrowerDelimiterFails(sql: string, n: nat, rest: string)
    requires 0 < n <= LongestRun(sql)
    ensures LexRaw(ReadNewlines(false, RawLiteral(sql, n) + rest)) != Some((sql, ReadNewlines(false, rest)))
  {
    hide ReadNewlines, LongestRun, RawLiteral, LexRaw;
    NewlinesOfRaw(sql, n, rest);
    RunSurvivesNewlines(sql);
    NarrowerEndsInside(ReadNewlines(false, sql), n, ReadNewlines(false, rest));
  }
}
