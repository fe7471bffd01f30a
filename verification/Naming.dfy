/** Case conversion and generated names, with ASCII case mapping. */
module Naming {
  import opened Wrappers
  import opened Text

  predicate IsUpper(c: char) { 'A' <= c <= 'Z' }
  predicate IsLower(c: char) { 'a' <= c <= 'z' }
  predicate IsDigit(c: char) { '0' <= c <= '9' }

  function LowerChar(c: char): char {
    if IsUpper(c) then (c as int + 32) as char else c
  }

  function UpperChar(c: char): char {
    if IsLower(c) then (c as int - 32) as char else c
  }

  function Lower(s: string): (r: string)
    ensures |r| == |s| && forall i :: 0 <= i < |s| ==> r[i] == LowerChar(s[i])
  {
    seq(|s|, i requires 0 <= i < |s| => LowerChar(s[i]))
  }

  function Upper(s: string): (r: string)
    ensures |r| == |s| && forall i :: 0 <= i < |s| ==> r[i] == UpperChar(s[i])
  {
    seq(|s|, i requires 0 <= i < |s| => UpperChar(s[i]))
  }

  predicate NoUpper(s: string) {
    forall i :: 0 <= i < |s| ==> !IsUpper(s[i])
  }

  // ---------- snake_case ----------

  /** Whether an upper-case character opens a new word, from its two neighbours. */
  predicate OpensWord(prev: Option<char>, after: string) {
    prev.Some? && (!IsUpper(prev.value) || (after != "" && IsLower(after[0])))
  }

  function SnakeFrom(prev: Option<char>, s: string): string
    decreases |s|
  {
    if s == "" then ""
    else
      (if IsUpper(s[0]) then (if OpensWord(prev, s[1..]) then "_" else "") + [LowerChar(s[0])] else [s[0]])
      + SnakeFrom(Some(s[0]), s[1..])
  }

  function Snake(s: string): string {
    if '_' in s then Lower(s)
    else if NoUpper(s) then s
    else SnakeFrom(None, s)
  }

  method ToSnakeCase(s: string) returns (result: string)
    ensures result == Snake(s)
  {
    if '_' in s {
      return Lower(s);
    }
    if forall i :: 0 <= i < |s| ==> !IsUpper(s[i]) {
      return s;
    }
    hide SnakeFrom;
    result := "";
    var prevChar: Option<char> := None;
    var chars := s;
    while chars != ""
      invariant result + SnakeFrom(prevChar, chars) == SnakeFrom(None, s)
      decreases |chars|
    {
      SnakeTurn(result, prevChar, chars);
      var c := chars[0];
      chars := chars[1..];
      if IsUpper(c) {
        if prevChar.Some? {
          var prevUpper := IsUpper(prevChar.value);
          var nextLower := chars != "" && IsLower(chars[0]);
          if !prevUpper || nextLower {
            result := result + "_";
          }
        }
        result := result + [LowerChar(c)];
      } else {
        result := result + [c];
      }
      prevChar := Some(c);
    }
    SnakeEnds(prevChar);
    assert result + "" == result;
  }

  lemma SnakeTurn(before: string, prev: Option<char>, s: string)
    requires s != ""
    ensures var more := SnakeFrom(Some(s[0]), s[1..]);
            before + SnakeFrom(prev, s)
            == (if !IsUpper(s[0]) then before + [s[0]]
                else (if OpensWord(prev, s[1..]) then before + "_" else before) + [LowerChar(s[0])]) + more
  {
    var more := SnakeFrom(Some(s[0]), s[1..]);
    var unit := if IsUpper(s[0]) then (if OpensWord(prev, s[1..]) then "_" else "") + [LowerChar(s[0])] else [s[0]];
    assert SnakeFrom(prev, s) == unit + more;
    Assoc(before, unit, more);
    if OpensWord(prev, s[1..]) {
      Assoc(before, "_", [LowerChar(s[0])]);
    }
  }

  lemma SnakeEnds(prev: Option<char>)
    ensures SnakeFrom(prev, "") == ""
  {
  }

  // ---------- PascalCase ----------

  /** `split('_')`. */
  function Split(s: string): (parts: seq<string>)
    ensures parts != []
  {
    if s == "" then [""]
    else
      var rest := Split(s[1..]);
      if s[0] == '_' then [""] + rest else [[s[0]] + rest[0]] + rest[1..]
  }

  function Capitalized(part: string): string {
    if part == "" then "" else [UpperChar(part[0])] + part[1..]
  }

  function JoinCapitalized(parts: seq<string>): string {
    if parts == [] then "" else Capitalized(parts[0]) + JoinCapitalized(parts[1..])
  }

  function Pascal(s: string): string {
    var snake := Snake(s);
    var result := JoinCapitalized(Split(snake));
    if result == "" && snake != "" then snake else result
  }

  lemma {:induction false} JoinConcat(xs: seq<string>, ys: seq<string>)
    ensures JoinCapitalized(xs + ys) == JoinCapitalized(xs) + JoinCapitalized(ys)
  {
    if xs == [] {
      assert xs + ys == ys;
    } else {
      assert (xs + ys)[1..] == xs[1..] + ys;
      JoinConcat(xs[1..], ys);
    }
  }

  lemma JoinOne(part: string)
    ensures JoinCapitalized([part]) == Capitalized(part)
  {
    var one := [part];
    assert one[1..] == [];
  }

  method ToPascalCase(s: string) returns (result: string)
    ensures result == Pascal(s)
  {
    hide Snake, Split, JoinCapitalized;
    var snake := ToSnakeCase(s);
    var parts := Split(snake);
    JoinNothing();
    assert parts[..0] == [];
    result := "";
    for i := 0 to |parts|
      invariant result == JoinCapitalized(parts[..i])
    {
      var part := parts[i];
      assert parts[..i + 1] == parts[..i] + [part];
      JoinConcat(parts[..i], [part]);
      JoinOne(part);
      if part != "" {
        Assoc(result, [UpperChar(part[0])], part[1..]);
        result := result + [UpperChar(part[0])];
        result := result + part[1..];
      }
    }
    assert parts[..|parts|] == parts;
    if result == "" && snake != "" {
      result := snake;
    }
  }

  // ---------- the other conventions ----------

  function Camel(s: string): string {
    var pascal := Pascal(s);
    if pascal == "" then s else [LowerChar(pascal[0])] + pascal[1..]
  }

  function ScreamingSnake(s: string): string {
    Upper(Snake(s))
  }

  const VALID_CASE_NAMES := ["PascalCase", "snake_case", "camelCase", "SCREAMING_SNAKE_CASE"]

  function ApplyCase(s: string, convention: string): string {
    match convention
    case "PascalCase" => Pascal(s)
    case "snake_case" => Snake(s)
    case "camelCase" => Camel(s)
    case "SCREAMING_SNAKE_CASE" => ScreamingSnake(s)
    case _ => s
  }

  datatype NamingConfig = NamingConfig(structCase: string, fnCase: string, enumVariantCase: string, rowSuffix: string)

  function RowStructName(queryName: string, naming: NamingConfig): string {
    ApplyCase(queryName, naming.structCase) + naming.rowSuffix
  }

  function FnName(queryName: string, naming: NamingConfig): string {
    ApplyCase(queryName, naming.fnCase)
  }

  function ReplaceNonIdentifierChars(s: string): string {
    seq(|s|, i requires 0 <= i < |s| =>
      if IsUpper(s[i]) || IsLower(s[i]) || IsDigit(s[i]) || s[i] == '_' then s[i] else '_')
  }

  function SanitizeForIdentifier(s: string): string {
    var result := ReplaceNonIdentifierChars(s);
    if result != "" && IsDigit(result[0]) then "V" + result else result
  }

  /** `enum_type_name` and `composite_type_name` are the same derivation. */
  function TypeName(sqlName: string, naming: NamingConfig): string {
    ApplyCase(SanitizeForIdentifier(sqlName), naming.structCase)
  }

  // ---------- one stem ----------

  lemma {:induction false} SnakeFromHasNoUpper(prev: Option<char>, s: string)
    ensures NoUpper(SnakeFrom(prev, s))
    decreases |s|
  {
    if s != "" {
      SnakeFromHasNoUpper(Some(s[0]), s[1..]);
    }
  }

  lemma SnakeHasNoUpper(s: string)
    ensures NoUpper(Snake(s))
  {
    SnakeFromHasNoUpper(None, s);
  }

  lemma SnakeFixesNoUpper(s: string)
    requires NoUpper(s)
    ensures Snake(s) == s
  {
    assert Lower(s) == s;
  }

  lemma SnakeIdempotent(s: string)
    ensures Snake(Snake(s)) == Snake(s)
  {
    hide Snake;
    SnakeHasNoUpper(s);
    SnakeFixesNoUpper(Snake(s));
  }

  /** Every convention built on the snake stem sees through it. */
  lemma CaseSeesThroughSnake(s: string)
    ensures Pascal(Snake(s)) == Pascal(s)
    ensures Camel(Snake(s)) == Camel(s)
    ensures ScreamingSnake(Snake(s)) == ScreamingSnake(s)
  {
    hide Snake;
    SnakeIdempotent(s);
    PascalEmptiness(s);
    PascalEmptiness(Snake(s));
  }

  lemma PascalEmptiness(s: string)
    ensures Pascal(s) == "" <==> s == ""
    ensures Snake(s) == "" <==> s == ""
  {
    if s == "" {
      assert Split("") == [""];
    }
  }

  lemma {:induction false} JoinedStartsUpper(parts: seq<string>)
    ensures JoinCapitalized(parts) != "" ==> !IsLower(JoinCapitalized(parts)[0])
  {
    if parts != [] {
      JoinedStartsUpper(parts[1..]);
    }
  }

  lemma OnlyUnderscores(s: string)
    requires JoinCapitalized(Split(s)) == ""
    ensures s != "" ==> s[0] == '_'
  {
  }

  /** Camel is Pascal with its first character lowered, and raising it again gives Pascal. */
  lemma CamelAndPascalShareAStem(s: string)
    ensures Capitalized(Camel(s)) == Pascal(s)
  {
    hide Snake;
    PascalEmptiness(s);
    JoinedStartsUpper(Split(Snake(s)));
    if JoinCapitalized(Split(Snake(s))) == "" {
      OnlyUnderscores(Snake(s));
    }
    var pascal := Pascal(s);
    if pascal != "" {
      assert !IsLower(pascal[0]);
      assert Camel(s)[1..] == pascal[1..];
      assert [UpperChar(LowerChar(pascal[0]))] + pascal[1..] == pascal;
    }
  }

  /**
   The row type of a query can be named from its function's name alone, under each of the three
   function conventions the manifests use with PascalCase types.
   */
  lemma FunctionAndRowTypeAgree(query: string, naming: NamingConfig)
    requires naming.structCase == "PascalCase"
    requires naming.fnCase in {"camelCase", "snake_case", "PascalCase"}
    ensures RowStructName(query, naming)
         == (if naming.fnCase == "snake_case" then Pascal(FnName(query, naming)) else Capitalized(FnName(query, naming)))
            + naming.rowSuffix
  {
    hide Snake, Pascal, Camel;
    CaseSeesThroughSnake(query);
    CamelAndPascalShareAStem(query);
    CapitalizedPascal(query);
  }

  lemma CapitalizedPascal(s: string)
    ensures Capitalized(Pascal(s)) == Pascal(s)
  {
    hide Camel, Snake;
    CamelAndPascalShareAStem(s);
    var pascal := Pascal(s);
    if pascal != "" {
      JoinedStartsUpper(Split(Snake(s)));
      if JoinCapitalized(Split(Snake(s))) == "" {
        OnlyUnderscores(Snake(s));
      }
      assert [pascal[0]] + pascal[1..] == pascal;
    }
  }

  // ---------- when snake_case inverts PascalCase ----------

  /** Lower-case words of letters and digits joined by single underscores. */
  predicate SnakeWords(s: string) {
    && s != "" && s[0] != '_' && s[|s| - 1] != '_'
    && (forall i :: 0 <= i < |s| ==> IsLower(s[i]) || IsDigit(s[i]) || s[i] == '_')
    && (forall i :: 0 <= i < |s| - 1 && s[i] == '_' ==> s[i + 1] != '_')
  }

  /** Position `i` starts a word with a letter, so it is a capital in PascalCase. */
  predicate Capital(s: string, i: int)
    requires 0 <= i < |s|
  {
    IsLower(s[i]) && (i == 0 || s[i - 1] == '_')
  }

  /**
   The boundary at `k` can be found again in PascalCase: the next word starts with a letter, and
   unless the word before is a single letter that capital alone marks it; otherwise the letter
   after it must.
   */
  predicate BoundaryVisible(s: string, k: int)
    requires 0 < k < |s| - 1
  {
    IsLower(s[k + 1]) && (Capital(s, k - 1) ==> k + 2 < |s| && IsLower(s[k + 2]))
  }

  /** Capitalizing without splitting: `start` says whether a word is about to begin. */
  function Squash(start: bool, s: string): string
    decreases |s|
  {
    if s == "" then ""
    else if s[0] == '_' then Squash(true, s[1..])
    else [if start then UpperChar(s[0]) else s[0]] + Squash(false, s[1..])
  }

  lemma {:induction false} SquashIsJoin(s: string)
    ensures Squash(true, s) == JoinCapitalized(Split(s))
    ensures Squash(false, s) == Split(s)[0] + JoinCapitalized(Split(s)[1..])
  {
    hide JoinCapitalized;
    var parts := Split(s);
    JoinHead(parts[0], parts[1..]);
    assert parts == [parts[0]] + parts[1..];
    if s == "" {
      JoinNothing();
    } else {
      SquashIsJoin(s[1..]);
      var rest := Split(s[1..]);
      JoinHead(rest[0], rest[1..]);
      assert rest == [rest[0]] + rest[1..];
      if s[0] == '_' {
        assert parts[1..] == rest;
      } else {
        assert parts[0] == [s[0]] + rest[0] && parts[1..] == rest[1..];
        assert Capitalized(parts[0]) == [UpperChar(s[0])] + rest[0];
      }
    }
  }

  lemma JoinHead(head: string, rest: seq<string>)
    ensures JoinCapitalized([head] + rest) == Capitalized(head) + JoinCapitalized(rest)
  {
    assert ([head] + rest)[1..] == rest;
  }

  lemma JoinNothing()
    ensures JoinCapitalized([]) == ""
  {
  }

  /** What follows a capital, as the word splitter peeks at it. */
  lemma PeekAfter(s: string, i: nat)
    requires SnakeWords(s) && i <= |s|
    ensures var after := Squash(false, s[i..]);
            (after != "" && IsLower(after[0])) <==> (i < |s| && IsLower(s[i]))
  {
    if i < |s| && s[i] == '_' {
      var t := s[i..];
      assert t[1..] == s[i + 1..];
    }
  }

  /** No boundary from `j` on is lost. */
  predicate AllVisible(s: string, j: nat)
    requires SnakeWords(s)
  {
    forall k :: j <= k < |s| && s[k] == '_' ==> k > 0 && BoundaryVisible(s, k)
  }

  /** From inside a word on: nothing is added, and nothing is lost iff every boundary is visible. */
  lemma {:induction false} SnakeOfSquash(s: string, j: nat, prev: char)
    requires SnakeWords(s) && 0 < j <= |s| && s[j - 1] != '_'
    requires IsUpper(prev) <==> Capital(s, j - 1)
    ensures var r := SnakeFrom(Some(prev), Squash(false, s[j..]));
            |r| <= |s| - j && (r == s[j..] <==> AllVisible(s, j))
    decreases |s| - j
  {
    hide SnakeFrom, Squash, BoundaryVisible, AllVisible, OpensWord, Capital;
    if j == |s| {
      AtEnd(s, prev);
    } else if s[j] != '_' {
      NextKind(s, j);
      SnakeOfSquash(s, j + 1, s[j]);
      WithinWord(s, j, prev);
    } else {
      NextKind(s, j + 1);
      SnakeOfSquash(s, j + 2, UpperChar(s[j + 1]));
      AcrossBoundary(s, j, prev);
    }
  }

  lemma NextKind(s: string, j: nat)
    requires SnakeWords(s) && 0 < j < |s| && s[j] != '_'
    ensures s[j - 1] == '_' ==> (IsUpper(UpperChar(s[j])) <==> Capital(s, j))
    ensures s[j - 1] != '_' ==> !IsUpper(s[j]) && !Capital(s, j)
  {
  }

  lemma AtEnd(s: string, prev: char)
    requires SnakeWords(s)
    ensures SnakeFrom(Some(prev), Squash(false, s[|s|..])) == s[|s|..]
    ensures AllVisible(s, |s|)
  {
  }

  lemma WithinWord(s: string, j: nat, prev: char)
    requires SnakeWords(s) && 0 < j < |s| && s[j] != '_'
    requires var more := SnakeFrom(Some(s[j]), Squash(false, s[j + 1..]));
             |more| <= |s| - j - 1 && (more == s[j + 1..] <==> AllVisible(s, j + 1))
    ensures var r := SnakeFrom(Some(prev), Squash(false, s[j..]));
            |r| <= |s| - j && (r == s[j..] <==> AllVisible(s, j))
  {
    hide SnakeFrom, Squash, BoundaryVisible, OpensWord, Capital;
    var (c, rest) := (s[j], Squash(false, s[j + 1..]));
    var more := SnakeFrom(Some(c), rest);
    SquashCons(c, s[j + 1..]);
    assert s[j..] == [c] + s[j + 1..];
    StepKept(prev, c, rest);
    VisibleStep(s, j, j + 1);
    SameTail([c], more, s[j + 1..]);
  }

  lemma AcrossBoundary(s: string, j: nat, prev: char)
    requires SnakeWords(s) && 0 < j < |s| && s[j] == '_'
    requires IsUpper(prev) <==> Capital(s, j - 1)
    requires var more := SnakeFrom(Some(UpperChar(s[j + 1])), Squash(false, s[j + 2..]));
             |more| <= |s| - j - 2 && (more == s[j + 2..] <==> AllVisible(s, j + 2))
    ensures var r := SnakeFrom(Some(prev), Squash(false, s[j..]));
            |r| <= |s| - j && (r == s[j..] <==> AllVisible(s, j))
  {
    hide SnakeFrom, Squash, AllVisible, Capital;
    var c := s[j + 1];
    var (up, tail) := (UpperChar(c), Squash(false, s[j + 2..]));
    var more := SnakeFrom(Some(up), tail);
    SquashBoundary(c, s[j + 2..]);
    assert s[j..] == ['_', c] + s[j + 2..];
    PeekAfter(s, j + 2);
    VisibleStep(s, j, j + 2);
    SameTail(['_', c], more, s[j + 2..]);
    if IsLower(c) {
      StepUpper(prev, up, tail);
    } else {
      StepKept(prev, up, tail);
    }
  }

  lemma SameTail(head: string, x: string, y: string)
    ensures head + x == head + y <==> x == y
  {
    if head + x == head + y {
      assert (head + x)[|head|..] == x && (head + y)[|head|..] == y;
    }
  }

  lemma SquashCons(c: char, rest: string)
    requires c != '_'
    ensures Squash(false, [c] + rest) == [c] + Squash(false, rest)
  {
    assert ([c] + rest)[1..] == rest;
  }

  lemma SquashBoundary(c: char, rest: string)
    requires c != '_'
    ensures Squash(false, ['_', c] + rest) == [UpperChar(c)] + Squash(false, rest)
  {
    var t := ['_', c] + rest;
    assert t[1..] == [c] + rest && t[1..][1..] == rest;
  }

  lemma VisibleStep(s: string, j: nat, m: nat)
    requires SnakeWords(s) && 0 < j < |s| && m == j + (if s[j] == '_' then 2 else 1)
    ensures AllVisible(s, j) <==> (s[j] == '_' ==> BoundaryVisible(s, j)) && AllVisible(s, m)
  {
    hide BoundaryVisible;
  }

  lemma StepKept(prev: char, c: char, rest: string)
    requires !IsUpper(c)
    ensures SnakeFrom(Some(prev), [c] + rest) == [c] + SnakeFrom(Some(c), rest)
  {
    assert ([c] + rest)[1..] == rest;
  }

  lemma StepUpper(prev: char, c: char, rest: string)
    requires IsUpper(c)
    ensures SnakeFrom(Some(prev), [c] + rest)
         == (if OpensWord(Some(prev), rest) then ['_', LowerChar(c)] else [LowerChar(c)]) + SnakeFrom(Some(c), rest)
  {
    assert ([c] + rest)[1..] == rest;
  }

  lemma {:induction false} SnakeFromFixesNoUpper(prev: Option<char>, s: string)
    requires NoUpper(s)
    ensures SnakeFrom(prev, s) == s
    decreases |s|
  {
    if s != "" {
      SnakeFromFixesNoUpper(Some(s[0]), s[1..]);
    }
  }

  lemma {:induction false} SquashedHasNoUnderscore(start: bool, s: string)
    ensures '_' !in Squash(start, s)
    decreases |s|
  {
    if s != "" {
      SquashedHasNoUnderscore(s[0] == '_', s[1..]);
    }
  }

  /** `to_snake_case` undoes `to_pascal_case` on snake words exactly when every boundary is visible. */
  lemma SnakeInvertsPascal(s: string)
    requires SnakeWords(s)
    ensures Snake(Pascal(s)) == s <==> AllVisible(s, 0)
  {
    hide Split, JoinCapitalized, BoundaryVisible;
    SnakeFixesNoUpper(s);
    SquashIsJoin(s);
    var pascal := Squash(true, s);
    var (first, rest) := (UpperChar(s[0]), Squash(false, s[1..]));
    assert pascal == [first] + rest && pascal[1..] == rest;
    assert Pascal(s) == pascal;
    SquashedHasNoUnderscore(true, s);
    if NoUpper(pascal) {
      SnakeFromFixesNoUpper(None, pascal);
    }
    assert Snake(pascal) == SnakeFrom(None, pascal);
    assert LowerChar(first) == s[0];
    assert SnakeFrom(None, pascal) == [s[0]] + SnakeFrom(Some(first), rest);
    SnakeOfSquash(s, 1, first);
    assert s == [s[0]] + s[1..];
    var r := SnakeFrom(Some(first), rest);
    assert ([s[0]] + r)[1..] == r;
  }

  predicate StartsWord(s: string, i: int)
    requires 0 <= i < |s|
  {
    s[i] != '_' && (i == 0 || s[i - 1] == '_')
  }

  predicate TwoLettersAt(s: string, i: int)
    requires 0 <= i < |s|
  {
    IsLower(s[i]) && i + 1 < |s| && IsLower(s[i + 1])
  }

  /** Words that each open with two letters are never confused. */
  lemma TwoLetterWordsRoundTrip(s: string)
    requires SnakeWords(s)
    requires forall i :: 0 <= i < |s| && StartsWord(s, i) ==> TwoLettersAt(s, i)
    ensures Snake(Pascal(s)) == s
  {
    hide Snake, Pascal;
    SnakeInvertsPascal(s);
    forall k | 0 <= k < |s| && s[k] == '_' ensures BoundaryVisible(s, k) {
      assert StartsWord(s, k + 1) && TwoLettersAt(s, k + 1);
      assert StartsWord(s, k - 1) ==> TwoLettersAt(s, k - 1);
    }
  }

  /** Two single-letter words merge: `a_b` becomes `AB`, then `ab`. */
  lemma SingleLettersMerge()
    ensures Snake(Pascal("a_b")) != "a_b"
  {
    hide Snake, Pascal;
    SnakeInvertsPascal("a_b");
    assert "a_b"[1] == '_' && !BoundaryVisible("a_b", 1);
  }
}
