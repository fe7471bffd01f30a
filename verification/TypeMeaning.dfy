/**
 What a neutral type means in the host language, read off a manifest's tables: the leaf's entry or
 derived name, wrapped in the text each container's pattern puts around its hole.
 */
module TypeMeaning {
  import opened Wrappers
  import opened Text
  import opened Naming
  import opened TypeResolver

  // ---------- filling a pattern ----------

  /** Pieces without a hole of their own. */
  ghost predicate Solid(pieces: seq<string>) {
    pieces != [] && forall p :: p in pieces ==> !Contains(p, "{T}")
  }

  /** A replacement goes through text before the first hole unchanged. */
  lemma {:induction false} ReplaceAfter(piece: string, rest: string, text: string)
    requires !Contains(piece, "{T}") && (rest == "" || "{T}" <= rest)
    ensures ReplaceAll(piece + rest, "{T}", text) == piece + ReplaceAll(rest, "{T}", text)
  {
    hide Contains;
    if piece == "" {
      assert piece + rest == rest;
    } else {
      var s := piece + rest;
      assert s[1..] == piece[1..] + rest;
      ContainsShift(piece, "{T}");
      NoHoleAcross(piece, rest);
      ReplaceAfter(piece[1..], rest, text);
    }
  }

  /** No hole straddles the end of a piece: a hole opens with its only brace of that kind. */
  lemma NoHoleAcross(piece: string, rest: string)
    requires piece != "" && !("{T}" <= piece) && (rest == "" || "{T}" <= rest)
    ensures !("{T}" <= piece + rest)
  {
    var s := piece + rest;
    if |piece| >= 3 {
      assert s[..3] == piece[..3];
    } else if rest != "" {
      assert rest[0] == '{' && s[|piece|] == '{';
    }
  }

  lemma ReplaceHole(rest: string, text: string)
    ensures ReplaceAll("{T}" + rest, "{T}", text) == text + ReplaceAll(rest, "{T}", text)
  {
    var s := "{T}" + rest;
    assert s[3..] == rest;
  }

  /** Filling a pattern puts the text between its pieces. */
  lemma {:induction false} PatternFills(pieces: seq<string>, text: string)
    requires Solid(pieces)
    ensures ReplaceAll(Join(pieces, "{T}"), "{T}", text) == Join(pieces, text)
    decreases |pieces|
  {
    hide Contains, ReplaceAll;
    assert pieces[0] in pieces;
    NothingReplaced(text);
    if |pieces| == 1 {
      ReplaceAfter(pieces[0], "", text);
      assert pieces[0] + "" == pieces[0];
    } else {
      var more := pieces[1..];
      PatternFills(more, text);
      ReplaceAfter(pieces[0], "{T}" + Join(more, "{T}"), text);
      ReplaceHole(Join(more, "{T}"), text);
      Assoc(pieces[0], "{T}", Join(more, "{T}"));
      Assoc(pieces[0], text, Join(more, text));
    }
  }

  lemma NothingReplaced(text: string)
    ensures ReplaceAll("", "{T}", text) == ""
  {
  }

  /** Every pattern is such a filling, so this says what each pattern does. */
  lemma {:induction false} PatternSplits(pattern: string) returns (pieces: seq<string>)
    ensures Solid(pieces) && Join(pieces, "{T}") == pattern
    decreases |pattern|
  {
    var at := IndexOf(pattern, "{T}");
    if at.None? {
      pieces := [pattern];
    } else {
      var (head, tail) := (pattern[..at.value], pattern[at.value + 3..]);
      assert pattern[at.value..][..3] == "{T}";
      assert pattern == head + ("{T}" + tail);
      var rest := PatternSplits(tail);
      BeforeFirstHole(pattern, at.value);
      pieces := [head] + rest;
      JoinCons(head, rest, "{T}");
      Assoc(head, "{T}", tail);
    }
  }

  lemma BeforeFirstHole(pattern: string, at: nat)
    requires at <= |pattern| && forall i :: 0 <= i < at ==> !OccursAt(pattern, "{T}", i)
    ensures !Contains(pattern[..at], "{T}")
  {
    var head := pattern[..at];
    forall i ensures !OccursAt(head, "{T}", i) {
      if 0 <= i && i + 3 <= at {
        assert head[i..][..3] == pattern[i..][..3];
        assert !OccursAt(pattern, "{T}", i);
      }
    }
  }

  // ---------- leaves ----------

  /** Lookups in the order the resolver makes them; a prefix wins over a scalar entry. */
  lemma LeafMeans(core: string, types: TypeMappings, naming: NamingConfig, position: Position)
    requires '<' !in core
    ensures var r := ResolveBase(core, types, naming, position);
            && (forall x :: core == "enum::" + x || core == "composite::" + x ==> r == Ok(TypeName(x, naming)))
            && (!("enum::" <= core) && !("composite::" <= core) ==>
                  && (core in types.scalars ==> r == Ok(types.scalars[core]))
                  && (core !in types.scalars && core != "" && 'A' <= core[0] <= 'Z' ==> r == Ok(core))
                  && (core !in types.scalars && (core == "" || !('A' <= core[0] <= 'Z')) ==> r == Err(UnknownType(core))))
  {
    ResolvesLeaf(core, types, naming, position);
    forall x | core == "enum::" + x || core == "composite::" + x
      ensures ResolveBase(core, types, naming, position) == Ok(TypeName(x, naming))
    {
      if core == "enum::" + x {
        assert core[6..] == x;
      } else {
        assert core[0] == 'c';
        assert core[11..] == x;
      }
    }
  }

  // ---------- whole types ----------

  /** The container table of a position; a docblock's own entries win. */
  function Table(types: TypeMappings, position: Position): map<string, string> {
    if position.Native? then types.containers else types.containers + types.docblockContainers
  }

  function Core(t: TypeTree): string {
    match t
    case Leaf(name) => name
    case Container(_, _, inner, _) => Core(inner)
  }

  /** Each container, outermost first, has a pattern made of these pieces. */
  ghost predicate PatternsAre(t: TypeTree, table: map<string, string>, patterns: seq<seq<string>>) {
    match t
    case Leaf(_) => patterns == []
    case Container(name, _, inner, _) =>
      && patterns != [] && name in table && Solid(patterns[0]) && table[name] == Join(patterns[0], "{T}")
      && PatternsAre(inner, table, patterns[1..])
  }

  function Wrapped(patterns: seq<seq<string>>, text: string): string {
    if patterns == [] then text else Join(patterns[0], Wrapped(patterns[1..], text))
  }

  /**
   A type means its leaf's meaning put between the pieces of every container's pattern, innermost
   first, at any depth and whatever padding stands inside the brackets.
   */
  lemma {:induction false} TypeMeans(t: TypeTree, types: TypeMappings, naming: NamingConfig, position: Position, patterns: seq<seq<string>>, text: string)
    requires Proper(t) && PatternsAre(t, Table(types, position), patterns)
    requires ResolveBase(Core(t), types, naming, position) == Ok(text)
    ensures ResolveBase(Print(t), types, naming, position) == Ok(Wrapped(patterns, text))
    decreases t
  {
    hide ResolveBase, Join, Solid, IsWhitespace, Trim, ReplaceAll;
    match t
    case Leaf(_) =>
    case Container(name, left, inner, right) =>
      TypeMeans(inner, types, naming, position, patterns[1..], text);
      TrimmedInside(left, Print(inner), right);
      ResolvesContainer(name, left + Print(inner) + right, types, naming, position);
      Assoc(name + "<", left + Print(inner) + right, ">");
      PatternFills(patterns[0], Wrapped(patterns[1..], text));
  }

  /** A container no table of the position knows is the error, whatever it holds. */
  lemma UnknownContainerFails(name: string, body: string, types: TypeMappings, naming: NamingConfig, position: Position)
    requires '<' !in name && name !in Table(types, position)
    ensures ResolveBase(name + "<" + body + ">", types, naming, position) == Err(UnknownContainer(name))
  {
    hide ResolveBase, Trim;
    ResolvesContainer(name, body, types, naming, position);
  }

  /** A failing leaf is the error of every type around it. */
  lemma {:induction false} LeafErrorStands(t: TypeTree, types: TypeMappings, naming: NamingConfig, position: Position, patterns: seq<seq<string>>, e: TypeError)
    requires Proper(t) && PatternsAre(t, Table(types, position), patterns)
    requires ResolveBase(Core(t), types, naming, position) == Err(e)
    ensures ResolveBase(Print(t), types, naming, position) == Err(e)
    decreases t
  {
    hide ResolveBase, Join, Solid, IsWhitespace, Trim, ReplaceAll;
    match t
    case Leaf(_) =>
    case Container(name, left, inner, right) =>
      LeafErrorStands(inner, types, naming, position, patterns[1..], e);
      TrimmedInside(left, Print(inner), right);
      ResolvesContainer(name, left + Print(inner) + right, types, naming, position);
      Assoc(name + "<", left + Print(inner) + right, ">");
  }

  /** Text after the first bracket that no closing bracket ends is the unknown type itself. */
  lemma UnclosedFails(name: string, body: string, types: TypeMappings, naming: NamingConfig, position: Position)
    requires '<' !in name && name in Table(types, position) && (body == "" || body[|body| - 1] != '>')
    ensures ResolveBase(name + "<" + body, types, naming, position) == Err(UnknownType(name + "<" + body))
  {
    var s := name + "<" + body;
    FoundChar(name, '<', body);
    assert s == name + ("<" + body);
    assert s[..|name|] == name && s[|name| + 1..] == body;
  }

  // ---------- nullability ----------

  /** Without a nullable pattern, a nullable type and a rendering that differs from its base both fail. */
  lemma MissingNullableFails(neutral: string, types: TypeMappings, naming: NamingConfig, position: Position, lang: string, full: string)
    requires "nullable" !in Table(types, position) && ResolveBase(neutral, types, naming, position).Ok?
    ensures ResolveType(neutral, types, naming, true, position) == Err(UnknownContainer("nullable"))
    ensures ParseRenderedNullable(lang, full, types) == if full == lang then Ok(false) else Err(UnknownContainer("nullable"))
  {
    hide ResolveBase;
  }

  /** A nullable type is its base between the pieces of the nullable pattern. */
  lemma NullableMeans(neutral: string, types: TypeMappings, naming: NamingConfig, position: Position, base: string, pieces: seq<string>)
    requires ResolveBase(neutral, types, naming, position) == Ok(base)
    requires "nullable" in Table(types, position) && Solid(pieces) && Table(types, position)["nullable"] == Join(pieces, "{T}")
    ensures ResolveType(neutral, types, naming, true, position) == Ok(Join(pieces, base))
    ensures ResolveType(neutral, types, naming, false, position) == Ok(base)
  {
    hide ResolveBase, Join, Solid, ReplaceAll;
    PatternFills(pieces, base);
  }

  /** The pair is the type as written and the type without its wrapper, or the error of either. */
  lemma PairIsBoth(neutral: string, types: TypeMappings, naming: NamingConfig, nullable: bool)
    ensures var (r, full, base) := (ResolveTypePair(neutral, types, naming, nullable),
                                    ResolveType(neutral, types, naming, nullable, Native),
                                    ResolveType(neutral, types, naming, false, Native));
            && (r.Ok? <==> full.Ok?)
            && (r.Ok? ==> base.Ok? && r.value == (full.value, base.value))
            && (r.Err? ==> r.error == full.error)
  {
    hide ResolveBase, ReplaceAll;
  }

  /** A full type that is neither the base nor the base made nullable is refused, and named. */
  lemma StrangeRenderingFails(lang: string, full: string, types: TypeMappings, pieces: seq<string>)
    requires "nullable" in types.containers && Solid(pieces) && types.containers["nullable"] == Join(pieces, "{T}")
    ensures ParseRenderedNullable(lang, full, types)
         == if full == lang then Ok(false) else if full == Join(pieces, lang) then Ok(true)
            else Err(UnrecognizedNullableRendering(lang, full))
  {
    hide Join, Solid, ReplaceAll;
    PatternFills(pieces, lang);
  }
}
