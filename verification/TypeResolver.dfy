/** Resolving neutral type strings through a manifest's tables, and reading nullability back. */
module TypeResolver {
  import opened Wrappers
  import opened Text
  import opened Naming

  datatype TypeMappings = TypeMappings(
    scalars: map<string, string>,
    containers: map<string, string>,
    docblockContainers: map<string, string>)

  datatype Position = Native | Docblock

  datatype TypeError =
    | UnknownType(neutral: string)
    | UnknownContainer(name: string)
    | UnrecognizedNullableRendering(langType: string, fullType: string)

  /** The container pattern for a position; a docblock falls back name by name. */
  function ContainerPattern(name: string, types: TypeMappings, position: Position): Option<string> {
    if position.Docblock? && name in types.docblockContainers then Some(types.docblockContainers[name])
    else if name in types.containers then Some(types.containers[name])
    else None
  }

  const HOLE := "{T}"

  /** A neutral type without brackets. */
  function ResolveLeaf(neutral: string, types: TypeMappings, naming: NamingConfig): Result<string, TypeError> {
    if "enum::" <= neutral then Ok(TypeName(neutral[6..], naming))
    else if "composite::" <= neutral then Ok(TypeName(neutral[11..], naming))
    else if neutral in types.scalars then Ok(types.scalars[neutral])
    else if neutral != "" && IsUpper(neutral[0]) then Ok(neutral)
    else Err(UnknownType(neutral))
  }

  function Substitute(pattern: string, inner: Result<string, TypeError>): Result<string, TypeError> {
    if inner.Ok? then Ok(ReplaceAll(pattern, HOLE, inner.value)) else inner
  }

  function ResolveBase(neutral: string, types: TypeMappings, naming: NamingConfig, position: Position): Result<string, TypeError>
    decreases |neutral|
  {
    var angle := FindChar(neutral, '<');
    if angle.None? then ResolveLeaf(neutral, types, naming)
    else
      var containerName := neutral[..angle.value];
      var pattern := ContainerPattern(containerName, types, position);
      if pattern.None? then Err(UnknownContainer(containerName))
      else
        var after := neutral[angle.value + 1..];
        if after == "" || after[|after| - 1] != '>' then Err(UnknownType(neutral))
        else Substitute(pattern.value, ResolveBase(Trim(after[..|after| - 1]), types, naming, position))
  }

  function WrapNullable(resolved: string, types: TypeMappings, position: Position): Result<string, TypeError> {
    var pattern := ContainerPattern("nullable", types, position);
    if pattern.None? then Err(UnknownContainer("nullable")) else Ok(ReplaceAll(pattern.value, HOLE, resolved))
  }

  function ResolveType(neutral: string, types: TypeMappings, naming: NamingConfig, nullable: bool, position: Position): Result<string, TypeError> {
    var base := ResolveBase(neutral, types, naming, position);
    if base.Err? || !nullable then base else WrapNullable(base.value, types, position)
  }

  // ---------- the types the strings spell ----------

  datatype TypeTree =
    | Leaf(name: string)
    | Container(name: string, left: string, inner: TypeTree, right: string)

  function Print(t: TypeTree): string {
    match t
    case Leaf(name) => name
    case Container(name, left, inner, right) => name + "<" + (left + Print(inner) + right) + ">"
  }

  /** Names without brackets or outer blanks, and blank padding. */
  predicate Proper(t: TypeTree) {
    match t
    case Leaf(name) => '<' !in name
    case Container(name, left, inner, right) =>
      && '<' !in name && AllBlank(left, IsWhitespace) && AllBlank(right, IsWhitespace)
      && Trimmed(Print(inner), IsWhitespace) && Proper(inner)
  }

  /** Rendering on the tree: each container's pattern with its hole filled by what it contains. */
  function Render(t: TypeTree, types: TypeMappings, naming: NamingConfig, position: Position): Result<string, TypeError> {
    match t
    case Leaf(name) => ResolveLeaf(name, types, naming)
    case Container(name, _, inner, _) =>
      var pattern := ContainerPattern(name, types, position);
      if pattern.None? then Err(UnknownContainer(name)) else Substitute(pattern.value, Render(inner, types, naming, position))
  }

  /** The string resolver refines the tree renderer, whatever padding stands inside the brackets. */
  lemma {:induction false} ResolverRendersTrees(t: TypeTree, types: TypeMappings, naming: NamingConfig, position: Position)
    requires Proper(t)
    ensures ResolveBase(Print(t), types, naming, position) == Render(t, types, naming, position)
    decreases t
  {
    hide ResolveBase, ResolveLeaf, Substitute, ContainerPattern, IsWhitespace, Trim;
    match t
    case Leaf(name) =>
      ResolvesLeaf(name, types, naming, position);
    case Container(name, left, inner, right) =>
      ResolverRendersTrees(inner, types, naming, position);
      TrimmedInside(left, Print(inner), right);
      ResolvesContainer(name, left + Print(inner) + right, types, naming, position);
      Assoc(name + "<", left + Print(inner) + right, ">");
  }

  lemma TrimmedInside(left: string, inner: string, right: string)
    requires AllBlank(left, IsWhitespace) && AllBlank(right, IsWhitespace) && Trimmed(inner, IsWhitespace)
    ensures Trim(left + inner + right) == inner
  {
    hide IsWhitespace, TrimBy;
    TrimOfPadded(left, inner, right, IsWhitespace);
  }

  lemma ResolvesLeaf(name: string, types: TypeMappings, naming: NamingConfig, position: Position)
    requires FindChar(name, '<').None?
    ensures ResolveBase(name, types, naming, position) == ResolveLeaf(name, types, naming)
  {
    hide ResolveLeaf;
  }

  lemma ResolvesContainer(name: string, body: string, types: TypeMappings, naming: NamingConfig, position: Position)
    requires '<' !in name
    ensures var pattern := ContainerPattern(name, types, position);
            ResolveBase(name + "<" + body + ">", types, naming, position)
            == if pattern.None? then Err(UnknownContainer(name))
               else Substitute(pattern.value, ResolveBase(Trim(body), types, naming, position))
  {
    hide ResolveLeaf, Substitute, ContainerPattern, FindChar, Trim;
    var s := name + "<" + body + ">";
    FoundChar(name, '<', body + ">");
    assert s == name + ("<" + (body + ">"));
    assert s[..|name|] == name && s[|name| + 1..] == body + ">";
    assert (body + ">")[..|body|] == body;
  }

  /** Only printed trees resolve: a string with unbalanced or trailing text never does. */
  lemma {:induction false} OnlyTreesResolve(s: string, types: TypeMappings, naming: NamingConfig, position: Position) returns (t: TypeTree)
    requires ResolveBase(s, types, naming, position).Ok?
    ensures Proper(t) && Print(t) == s
    decreases |s|
  {
    hide ResolveLeaf, ContainerPattern, FindChar, Trim, TrimBy, Substitute, Proper, Print;
    var angle := FindChar(s, '<');
    if angle.None? {
      t := Leaf(s);
      LeafPrints(s);
    } else {
      var name, after := s[..angle.value], s[angle.value + 1..];
      var body := after[..|after| - 1];
      assert s == name + ("<" + after) && after == body + ">";
      OnlyOkSubstitutes(ContainerPattern(name, types, position).value, ResolveBase(Trim(body), types, naming, position));
      var inner := OnlyTreesResolve(Trim(body), types, naming, position);
      t := PaddedContainer(name, body, inner);
    }
  }

  lemma LeafPrints(s: string)
    requires '<' !in s
    ensures Proper(Leaf(s)) && Print(Leaf(s)) == s
  {
  }

  lemma OnlyOkSubstitutes(pattern: string, inner: Result<string, TypeError>)
    ensures Substitute(pattern, inner).Ok? <==> inner.Ok?
  {
  }

  lemma PaddedContainer(name: string, body: string, inner: TypeTree) returns (t: TypeTree)
    requires '<' !in name && Proper(inner) && Print(inner) == Trim(body)
    ensures Proper(t) && Print(t) == name + ("<" + (body + ">"))
  {
    hide IsWhitespace, TrimBy, Trimmed;
    var left, right := TrimDecomposes(body, IsWhitespace);
    t := Container(name, left, inner, right);
    assert Print(t) == name + "<" + body + ">";
  }

  // ---------- docblocks ----------

  /** The container table with the docblock entries laid over it. */
  function Overlaid(types: TypeMappings): TypeMappings {
    types.(containers := types.containers + types.docblockContainers)
  }

  /** A docblock type is the native type of the overlaid tables, at every depth, errors included. */
  lemma {:induction false} DocblockIsOverlaidNative(neutral: string, types: TypeMappings, naming: NamingConfig)
    ensures ResolveBase(neutral, types, naming, Docblock) == ResolveBase(neutral, Overlaid(types), naming, Native)
    decreases |neutral|
  {
    hide Substitute, Trim, FindChar;
    var angle := FindChar(neutral, '<');
    if angle.Some? {
      var after := neutral[angle.value + 1..];
      if after != "" {
        DocblockIsOverlaidNative(Trim(after[..|after| - 1]), types, naming);
      }
    }
  }

  lemma DocblockTypeIsOverlaidNative(neutral: string, types: TypeMappings, naming: NamingConfig, nullable: bool)
    ensures ResolveType(neutral, types, naming, nullable, Docblock) == ResolveType(neutral, Overlaid(types), naming, nullable, Native)
  {
    hide ResolveBase;
    DocblockIsOverlaidNative(neutral, types, naming);
  }

  // ---------- what success depends on ----------

  /** Same names known in each table position; what they map to is free. */
  predicate SameVocabulary(a: TypeMappings, b: TypeMappings) {
    && a.scalars.Keys == b.scalars.Keys
    && a.containers.Keys == b.containers.Keys
    && a.containers.Keys + a.docblockContainers.Keys == b.containers.Keys + b.docblockContainers.Keys
  }

  /** Whether a type resolves, and if not why, depends on the known names alone. */
  lemma {:induction false} VerdictDependsOnVocabulary(neutral: string, a: TypeMappings, b: TypeMappings, n: NamingConfig, m: NamingConfig, position: Position)
    requires SameVocabulary(a, b)
    ensures var (r, q) := (ResolveBase(neutral, a, n, position), ResolveBase(neutral, b, m, position));
            (r.Ok? <==> q.Ok?) && (r.Err? ==> r.error == q.error)
    decreases |neutral|
  {
    hide Trim, FindChar, ReplaceAll, TypeName;
    var angle := FindChar(neutral, '<');
    if angle.Some? {
      SamePatternsKnown(neutral[..angle.value], a, b, position);
      var after := neutral[angle.value + 1..];
      if after != "" {
        VerdictDependsOnVocabulary(Trim(after[..|after| - 1]), a, b, n, m, position);
      }
    }
  }

  lemma SamePatternsKnown(name: string, a: TypeMappings, b: TypeMappings, position: Position)
    requires SameVocabulary(a, b)
    ensures ContainerPattern(name, a, position).Some? <==> ContainerPattern(name, b, position).Some?
  {
    assert name in a.containers.Keys + a.docblockContainers.Keys <==> name in b.containers.Keys + b.docblockContainers.Keys;
  }

  /** The same with the nullable wrapper on top. */
  lemma TypeVerdictDependsOnVocabulary(neutral: string, a: TypeMappings, b: TypeMappings, n: NamingConfig, m: NamingConfig, nullable: bool, position: Position)
    requires SameVocabulary(a, b)
    ensures var (r, q) := (ResolveType(neutral, a, n, nullable, position), ResolveType(neutral, b, m, nullable, position));
            (r.Ok? <==> q.Ok?) && (r.Err? ==> r.error == q.error)
  {
    hide ResolveBase, ContainerPattern, ReplaceAll;
    VerdictDependsOnVocabulary(neutral, a, b, n, m, position);
    SamePatternsKnown("nullable", a, b, position);
  }

  // ---------- nullability read back ----------

  /** `resolve_type_pair`: the type as written, and its base. */
  function ResolveTypePair(neutral: string, types: TypeMappings, naming: NamingConfig, nullable: bool): Result<(string, string), TypeError> {
    var base := ResolveBase(neutral, types, naming, Native);
    if base.Err? then Err(base.error)
    else if !nullable then Ok((base.value, base.value))
    else
      var full := WrapNullable(base.value, types, Native);
      if full.Err? then Err(full.error) else Ok((full.value, base.value))
  }

  function ParseRenderedNullable(langType: string, fullType: string, types: TypeMappings): Result<bool, TypeError> {
    if fullType == langType then Ok(false)
    else
      var wrapped := WrapNullable(langType, types, Native);
      if wrapped.Err? then Err(wrapped.error)
      else if fullType == wrapped.value then Ok(true)
      else Err(UnrecognizedNullableRendering(langType, fullType))
  }

  /** Number of holes a substitution fills. */
  function Holes(pattern: string): (n: nat)
    ensures 3 * n <= |pattern|
    decreases |pattern|
  {
    if pattern == "" then 0
    else if HOLE <= pattern then 1 + Holes(pattern[3..])
    else Holes(pattern[1..])
  }

  lemma {:induction false} SubstitutedLength(pattern: string, text: string)
    ensures |ReplaceAll(pattern, HOLE, text)| == |pattern| - 3 * Holes(pattern) + Holes(pattern) * |text|
    decreases |pattern|
  {
    if pattern != "" {
      if HOLE <= pattern {
        SubstitutedLength(pattern[3..], text);
        var n := Holes(pattern[3..]);
        assert (1 + n) * |text| == |text| + n * |text|;
      } else {
        SubstitutedLength(pattern[1..], text);
      }
    }
  }

  lemma {:induction false} NothingSubstituted(pattern: string, text: string)
    requires Holes(pattern) == 0
    ensures ReplaceAll(pattern, HOLE, text) == pattern
    decreases |pattern|
  {
    if pattern != "" {
      NothingSubstituted(pattern[1..], text);
      assert pattern == [pattern[0]] + pattern[1..];
    }
  }

  lemma {:induction false} HoleOccurs(pattern: string)
    ensures Holes(pattern) > 0 <==> Contains(pattern, HOLE)
    decreases |pattern|
  {
    if pattern == "" {
      assert IndexOf("", HOLE).None?;
    } else if HOLE <= pattern {
      assert IndexOf(pattern, HOLE) == Some(0);
    } else {
      HoleOccurs(pattern[1..]);
    }
  }

  /** Filling the pattern with this text leaves the text alone. */
  predicate Absorbs(pattern: string, text: string) {
    || pattern == HOLE
    || (Holes(pattern) == 0 && pattern == text)
    || (text == "" && |pattern| == 3 * Holes(pattern))
  }

  lemma AbsorbsIsIdentity(pattern: string, text: string)
    ensures ReplaceAll(pattern, HOLE, text) == text <==> Absorbs(pattern, text)
  {
    hide ReplaceAll, Holes;
    SubstitutedLength(pattern, text);
    var n := Holes(pattern);
    if n == 0 {
      NothingSubstituted(pattern, text);
    }
    OneHole(pattern, text);
    if ReplaceAll(pattern, HOLE, text) == text && n > 0 && text != "" {
      assert n * |text| == |text| + (n - 1) * |text|;
      assert n >= 2 ==> (n - 1) * |text| >= 1;
    }
  }

  lemma OneHole(pattern: string, text: string)
    ensures Holes(HOLE) == 1 && ReplaceAll(HOLE, HOLE, text) == text
    ensures Holes(pattern) == 1 && |pattern| == 3 ==> pattern == HOLE
  {
    assert HOLE[3..] == "";
    assert Holes("") == 0 && ReplaceAll("", HOLE, text) == "" && text + "" == text;
    if |pattern| == 3 && pattern != HOLE {
      assert Holes(pattern[1..]) == 0;
    }
  }

  /**
   Reading back what was rendered: the flag that went in comes out, except when the manifest's
   nullable pattern absorbs the base type, and then the answer is always no.
   */
  lemma RenderedNullableReadsBack(neutral: string, types: TypeMappings, naming: NamingConfig, nullable: bool)
    requires ResolveTypePair(neutral, types, naming, nullable).Ok?
    ensures var (full, lang) := ResolveTypePair(neutral, types, naming, nullable).value;
            ParseRenderedNullable(lang, full, types)
            == Ok(nullable && !Absorbs(types.containers["nullable"], lang))
  {
    hide ResolveBase, Absorbs, ReplaceAll;
    if nullable {
      AbsorbsIsIdentity(types.containers["nullable"], ResolveTypePair(neutral, types, naming, nullable).value.1);
    }
  }

  /** In particular for every pattern that holds its hole and more, and every non-empty base type. */
  lemma UsualPatternsReadBack(neutral: string, types: TypeMappings, naming: NamingConfig, nullable: bool)
    requires ResolveTypePair(neutral, types, naming, nullable).Ok?
    requires "nullable" in types.containers && Contains(types.containers["nullable"], HOLE)
    ensures var (full, lang) := ResolveTypePair(neutral, types, naming, nullable).value;
            && (lang != "" && types.containers["nullable"] != HOLE ==> ParseRenderedNullable(lang, full, types) == Ok(nullable))
            && (types.containers["nullable"] == HOLE ==> ParseRenderedNullable(lang, full, types) == Ok(false))
  {
    hide ResolveTypePair, ParseRenderedNullable, Holes, Contains;
    HoleOccurs(types.containers["nullable"]);
    RenderedNullableReadsBack(neutral, types, naming, nullable);
  }
}
