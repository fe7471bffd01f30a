/** What generated names look like, character by character, under each convention. */
module NameShapes {
  import opened Wrappers
  import opened Text
  import opened Naming

  predicate AsciiCapital(c: char) { 'A' <= c <= 'Z' }
  predicate AsciiSmall(c: char) { 'a' <= c <= 'z' }

  /** `small` is the other one with capitals made small. */
  predicate LoweredTo(c: char, small: char) {
    if AsciiCapital(c) then small as int == c as int + 32 else small == c
  }

  // ---------- snake case by position ----------

  /** A capital opens a word after anything but a capital, and also before a small letter. */
  predicate WordStart(s: string, i: int)
    requires 0 <= i < |s|
  {
    i > 0 && AsciiCapital(s[i]) && (!AsciiCapital(s[i - 1]) || (i + 1 < |s| && AsciiSmall(s[i + 1])))
  }

  /** Snake case of the first `n` characters, each position decided by its neighbours. */
  ghost predicate SplitsTo(s: string, n: nat, r: string)
    requires n <= |s|
    decreases n
  {
    if n == 0 then r == ""
    else if WordStart(s, n - 1) then
      |r| > 1 && LoweredTo(s[n - 1], r[|r| - 1]) && r[|r| - 2] == '_' && SplitsTo(s, n - 1, r[..|r| - 2])
    else
      r != "" && LoweredTo(s[n - 1], r[|r| - 1]) && SplitsTo(s, n - 1, r[..|r| - 1])
  }

  lemma {:induction false} SplitsFrom(s: string, n: nat, before: string)
    requires n <= |s| && SplitsTo(s, n, before)
    ensures SplitsTo(s, |s|, before + SnakeFrom(if n == 0 then None else Some(s[n - 1]), s[n..]))
    decreases |s| - n
  {
    hide SplitsTo;
    var prev := if n == 0 then None else Some(s[n - 1]);
    if n == |s| {
      SnakeEnds(prev);
      assert s[n..] == "" && before + "" == before;
    } else {
      SnakeTurn(before, prev, s[n..]);
      assert s[n..][1..] == s[n + 1..];
      var boundary := if WordStart(s, n) then before + "_" else before;
      var unit := if AsciiCapital(s[n]) then LowerChar(s[n]) else s[n];
      OneMoreSplit(s, n, before, unit);
      SplitsFrom(s, n + 1, boundary + [unit]);
    }
  }

  lemma OneMoreSplit(s: string, n: nat, before: string, unit: char)
    requires n < |s| && SplitsTo(s, n, before) && LoweredTo(s[n], unit)
    ensures SplitsTo(s, n + 1, (if WordStart(s, n) then before + "_" else before) + [unit])
  {
    if WordStart(s, n) {
      var r := before + "_" + [unit];
      assert r[..|r| - 2] == before;
    } else {
      var r := before + [unit];
      assert r[..|r| - 1] == before;
    }
  }

  lemma NothingSplit(s: string)
    ensures SplitsTo(s, 0, "")
  {
  }

  /** Text without an underscore is split before every word start and made small. */
  lemma SnakeSplits(s: string)
    requires '_' !in s
    ensures SplitsTo(s, |s|, Snake(s))
  {
    if NoUpper(s) {
      SmallSplits(s, |s|);
      assert s[..|s|] == s;
    } else {
      NothingSplit(s);
      SplitsFrom(s, 0, "");
      assert s[0..] == s && "" + SnakeFrom(None, s) == SnakeFrom(None, s);
    }
  }

  lemma {:induction false} SmallSplits(s: string, n: nat)
    requires NoUpper(s) && n <= |s|
    ensures SplitsTo(s, n, s[..n])
  {
    if n > 0 {
      SmallSplits(s, n - 1);
      assert s[..n][..n - 1] == s[..n - 1];
    }
  }

  /** Text that holds an underscore keeps its words, whatever their case: it is only made small. */
  lemma SnakeWithUnderscore(s: string)
    requires '_' in s
    ensures |Snake(s)| == |s| && forall i :: 0 <= i < |s| ==> LoweredTo(s[i], Snake(s)[i])
  {
  }

  /** So an upper-case name with underscores is not split further. */
  lemma UpperSnakeIsLowered()
    ensures Snake("ORDER_STATUS") == "order_status"
  {
    var s := "ORDER_STATUS";
    assert s[5] == '_';
    SnakeWithUnderscore(s);
    assert |Snake(s)| == |"order_status"| && forall i :: 0 <= i < 12 ==> LoweredTo(s[i], "order_status"[i]);
  }

  // ---------- Pascal case ----------

  /** `split` cuts at every underscore and loses nothing else. */
  lemma {:induction false} SplitIs(s: string)
    ensures Join(Split(s), "_") == s && forall p :: p in Split(s) ==> '_' !in p
  {
    hide Join, Split;
    SplitStep(s);
    if s == "" {
      Text.JoinOne("", "_");
    } else {
      SplitIs(s[1..]);
      var rest := Split(s[1..]);
      assert s == [s[0]] + s[1..];
      if s[0] == '_' {
        Text.JoinCons("", rest, "_");
        assert "" + "_" + s[1..] == s;
      } else {
        LongerFirst(s[0], rest);
      }
    }
  }

  lemma SplitStep(s: string)
    ensures s == "" ==> Split(s) == [""]
    ensures s != "" ==> Split(s) == if s[0] == '_' then [""] + Split(s[1..]) else [[s[0]] + Split(s[1..])[0]] + Split(s[1..])[1..]
  {
  }

  lemma LongerFirst(c: char, parts: seq<string>)
    requires parts != []
    ensures Join([[c] + parts[0]] + parts[1..], "_") == [c] + Join(parts, "_")
  {
    hide Join;
    assert parts == [parts[0]] + parts[1..];
    if |parts| == 1 {
      Text.JoinOne(parts[0], "_");
      Text.JoinOne([c] + parts[0], "_");
      assert [[c] + parts[0]] + parts[1..] == [[c] + parts[0]];
      assert parts == [parts[0]];
    } else {
      Text.JoinCons(parts[0], parts[1..], "_");
      Text.JoinCons([c] + parts[0], parts[1..], "_");
      assert [c] + parts[0] + "_" + Join(parts[1..], "_") == [c] + (parts[0] + "_" + Join(parts[1..], "_"));
    }
  }

  // ---------- names of functions and rows ----------

  /** The stem of a row type under PascalCase. */
  function Stem(query: string, naming: NamingConfig): string {
    RowStructName(query, naming.(structCase := "PascalCase", rowSuffix := ""))
  }

  /** Under camelCase a function is the row stem with its first character made small. */
  lemma CamelFunction(query: string, naming: NamingConfig)
    requires naming.fnCase == "camelCase"
    ensures var (name, stem) := (FnName(query, naming), Stem(query, naming));
            && |name| == |stem| && (name == "" <==> query == "")
            && (name != "" ==> LoweredTo(stem[0], name[0]) && !AsciiCapital(name[0]) && name[1..] == stem[1..])
  {
    hide Pascal;
    PascalEmptiness(query);
    assert Pascal(query) + "" == Pascal(query);
  }

  /** Under PascalCase it is the stem, which no small letter opens. */
  lemma PascalFunction(query: string, naming: NamingConfig)
    requires naming.fnCase == "PascalCase"
    ensures FnName(query, naming) == Stem(query, naming)
    ensures query != "" ==> FnName(query, naming) != "" && !AsciiSmall(FnName(query, naming)[0])
  {
    hide Snake, Split, JoinCapitalized;
    var snake := Snake(query);
    PascalEmptiness(query);
    JoinedStartsUpper(Split(snake));
    if JoinCapitalized(Split(snake)) == "" {
      OnlyUnderscores(snake);
    }
    assert Pascal(query) + "" == Pascal(query);
  }

  /** Under snake_case it holds no capital, and a query without capitals is its own name. */
  lemma SnakeFunction(query: string, naming: NamingConfig)
    requires naming.fnCase == "snake_case"
    ensures forall c :: c in FnName(query, naming) ==> !AsciiCapital(c)
    ensures (forall c :: c in query ==> !AsciiCapital(c)) ==> FnName(query, naming) == query
    ensures '_' !in query ==> SplitsTo(query, |query|, FnName(query, naming))
    ensures '_' in query ==> |FnName(query, naming)| == |query|
                             && forall i :: 0 <= i < |query| ==> LoweredTo(query[i], FnName(query, naming)[i])
  {
    hide Snake, SplitsTo;
    SnakeHasNoUpper(query);
    if forall c :: c in query ==> !AsciiCapital(c) {
      assert forall i :: 0 <= i < |query| ==> query[i] in query;
      SnakeFixesNoUpper(query);
    }
    if '_' in query {
      SnakeWithUnderscore(query);
    } else {
      SnakeSplits(query);
    }
  }

  /** Under SCREAMING_SNAKE_CASE it holds no small letter, and made small it is the snake form. */
  lemma ScreamingFunction(query: string, naming: NamingConfig)
    requires naming.fnCase == "SCREAMING_SNAKE_CASE"
    ensures var (name, snake) := (FnName(query, naming), FnName(query, naming.(fnCase := "snake_case")));
            && (forall c :: c in name ==> !AsciiSmall(c))
            && |name| == |snake| && forall i :: 0 <= i < |name| ==> LoweredTo(name[i], snake[i])
  {
    hide Snake;
    SnakeHasNoUpper(query);
  }

  /** Any other convention leaves the name alone. */
  lemma OtherFunction(query: string, naming: NamingConfig)
    requires naming.fnCase !in {"PascalCase", "snake_case", "camelCase", "SCREAMING_SNAKE_CASE"}
    ensures FnName(query, naming) == query
  {
  }

  /** A row type is what a function of the same convention would be, and the suffix. */
  lemma RowIsStyledAndSuffixed(query: string, naming: NamingConfig)
    ensures RowStructName(query, naming) == FnName(query, naming.(fnCase := naming.structCase)) + naming.rowSuffix
  {
  }

  /** The conventions an overlay may name are the four that change something. */
  lemma ValidConventions(convention: string)
    ensures convention in VALID_CASE_NAMES <==> convention in {"PascalCase", "snake_case", "camelCase", "SCREAMING_SNAKE_CASE"}
  {
    if convention in {"PascalCase", "snake_case", "camelCase", "SCREAMING_SNAKE_CASE"} {
      var names := VALID_CASE_NAMES;
      assert names[0] == "PascalCase" && names[1] == "snake_case" && names[2] == "camelCase" && names[3] == "SCREAMING_SNAKE_CASE";
    }
  }

  // ---------- names of types ----------

  predicate IdentifierChar(c: char) {
    AsciiCapital(c) || AsciiSmall(c) || '0' <= c <= '9' || c == '_'
  }

  /** Other characters become underscores, and a `V` stands before a digit that would open the name. */
  predicate CleanedTo(s: string, clean: string) {
    var prefix := if s != "" && '0' <= s[0] <= '9' then "V" else "";
    && prefix <= clean && |clean| == |prefix| + |s|
    && ReplacedTo(s, clean[|prefix|..])
  }

  predicate ReplacedTo(s: string, body: string) {
    |body| == |s| && forall i :: 0 <= i < |s| ==> body[i] == if IdentifierChar(s[i]) then s[i] else '_'
  }

  lemma CleanedIsOne(s: string, x: string, y: string)
    requires CleanedTo(s, x) && CleanedTo(s, y)
    ensures x == y
  {
    var prefix := if s != "" && '0' <= s[0] <= '9' then "V" else "";
    assert x[|prefix|..] == y[|prefix|..];
    assert x == prefix + x[|prefix|..] && y == prefix + y[|prefix|..];
  }

  /** An enum's or composite's type name is its cleaned SQL name under the convention for types. */
  lemma TypeNameIs(sqlName: string, clean: string, naming: NamingConfig)
    requires CleanedTo(sqlName, clean)
    ensures TypeName(sqlName, naming) == FnName(clean, naming.(fnCase := naming.structCase))
  {
    hide ApplyCase;
    var mine := SanitizeForIdentifier(sqlName);
    var body := ReplaceNonIdentifierChars(sqlName);
    assert ReplacedTo(sqlName, body);
    assert mine == body || mine[1..] == body;
    assert CleanedTo(sqlName, mine);
    CleanedIsOne(sqlName, mine, clean);
  }
}
