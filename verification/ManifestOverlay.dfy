/** `BackendManifest::apply_overlay`: a manifest changed in place by partial overlays. */
module ManifestOverlay {
  import opened Wrappers
  import opened Text
  import opened Naming
  import opened KeySuggestions
  import opened KeyOrder
  import TypeResolver

  type TypeMappings = TypeResolver.TypeMappings

  datatype TypeMappingsOverlay = TypeMappingsOverlay(
    scalars: map<string, string>, containers: map<string, string>, docblockContainers: map<string, string>)

  datatype NamingOverlay = NamingOverlay(
    structCase: Option<string>, fnCase: Option<string>, enumVariantCase: Option<string>, rowSuffix: Option<string>)

  datatype Overlay = Overlay(
    types: Option<TypeMappingsOverlay>, naming: Option<NamingOverlay>, imports: Option<map<string, string>>)

  /** The overridable part of a manifest, as a value. */
  datatype Manifest = Manifest(types: TypeMappings, naming: NamingConfig, imports: Option<map<string, string>>)

  /** Why an overlay was refused. */
  datatype OverlayError =
    | BadKey(key: KeyError)
    | BadCase(field: string, value: string)

  /** Where an overlay is refused, without the wording. */
  datatype Fault = KeyFault(section: string) | CaseFault(field: string, value: string)

  function FaultOf(e: OverlayError): Fault {
    match e
    case BadKey(k) => KeyFault(k.section)
    case BadCase(field, value) => CaseFault(field, value)
  }

  // ---------- what an overlay does, stage by stage ----------

  /** The manifest so far, and the fault that stopped the merge if one did. */
  datatype Outcome = Outcome(manifest: Manifest, fault: Option<Fault>)

  predicate KnownKeys(overlay: map<string, string>, vocabulary: set<string>) {
    overlay.Keys <= vocabulary
  }

  function ScalarStage(m: Manifest, o: TypeMappingsOverlay): Outcome {
    if !KnownKeys(o.scalars, m.types.scalars.Keys) then Outcome(m, Some(KeyFault("types.scalars")))
    else Outcome(m.(types := m.types.(scalars := m.types.scalars + o.scalars)), None)
  }

  function ContainerStage(m: Manifest, o: TypeMappingsOverlay): Outcome {
    if !KnownKeys(o.containers, m.types.containers.Keys) then Outcome(m, Some(KeyFault("types.containers")))
    else Outcome(m.(types := m.types.(containers := m.types.containers + o.containers)), None)
  }

  function DocblockStage(m: Manifest, o: TypeMappingsOverlay): Outcome {
    if !KnownKeys(o.docblockContainers, m.types.containers.Keys + m.types.docblockContainers.Keys) then
      Outcome(m, Some(KeyFault("types.docblock_containers")))
    else
      Outcome(m.(types := m.types.(docblockContainers := m.types.docblockContainers + o.docblockContainers)), None)
  }

  function TypesStage(m: Manifest, o: Overlay): Outcome {
    if o.types.None? then Outcome(m, None)
    else
      var s := ScalarStage(m, o.types.value);
      if s.fault.Some? then s
      else
        var c := ContainerStage(s.manifest, o.types.value);
        if c.fault.Some? then c else DocblockStage(c.manifest, o.types.value)
  }

  predicate BadCaseName(value: Option<string>) {
    value.Some? && value.value !in VALID_CASE_NAMES
  }

  function NamingStage(m: Manifest, o: Overlay): Outcome {
    if o.naming.None? then Outcome(m, None)
    else
      var n := o.naming.value;
      var m0 := m.naming;
      if BadCaseName(n.structCase) then Outcome(m, Some(CaseFault("struct_case", n.structCase.value)))
      else
        var m1 := m0.(structCase := n.structCase.GetOr(m0.structCase));
        if BadCaseName(n.fnCase) then Outcome(m.(naming := m1), Some(CaseFault("fn_case", n.fnCase.value)))
        else
          var m2 := m1.(fnCase := n.fnCase.GetOr(m1.fnCase));
          if BadCaseName(n.enumVariantCase) then
            Outcome(m.(naming := m2), Some(CaseFault("enum_variant_case", n.enumVariantCase.value)))
          else
            Outcome(m.(naming := m2.(enumVariantCase := n.enumVariantCase.GetOr(m2.enumVariantCase),
                                     rowSuffix := n.rowSuffix.GetOr(m2.rowSuffix))), None)
  }

  function ImportsStage(m: Manifest, o: Overlay): Manifest {
    if o.imports.None? then m else m.(imports := Some(m.imports.GetOr(map[]) + o.imports.value))
  }

  function Applied(m: Manifest, o: Overlay): Outcome {
    var t := TypesStage(m, o);
    if t.fault.Some? then t
    else
      var n := NamingStage(t.manifest, o);
      if n.fault.Some? then n else Outcome(ImportsStage(n.manifest, o), None)
  }

  // ---------- the in-place operation ----------

  /** Inserting every overlay entry, in whatever order the map yields them. */
  method InsertAll(target: map<string, string>, overlay: map<string, string>) returns (merged: map<string, string>)
    ensures merged == target + overlay
  {
    merged := target;
    var left := overlay.Keys;
    while left != {}
      invariant left <= overlay.Keys
      invariant forall k :: k in merged <==> k in target || (k in overlay && k !in left)
      invariant forall k :: k in merged ==> merged[k] == if k in overlay && k !in left then overlay[k] else target[k]
      decreases left
    {
      var key :| key in left;
      merged := merged[key := overlay[key]];
      left := left - {key};
    }
  }

  /** `merge_replace_only`: refuse keys the target does not have, else overwrite entries. */
  method MergeReplaceOnly(target: map<string, string>, overlay: map<string, string>, section: string)
    returns (merged: map<string, string>, r: Result<(), KeyError>)
    ensures r.Ok? <==> KnownKeys(overlay, target.Keys)
    ensures r.Ok? ==> merged == target + overlay
    ensures r.Err? ==> merged == target && r.error.section == section && IsSmallestUnknown(r.error, overlay, target.Keys)
  {
    var vocabulary := Enumerate(target.Keys);
    r := RejectUnknownKeys(overlay, vocabulary, section);
    merged := target;
    if r.Ok? {
      merged := InsertAll(target, overlay);
    }
  }

  /** The reported key is the smallest unknown one, and a suggestion is a known near miss. */
  ghost predicate IsSmallestUnknown(e: KeyError, overlay: map<string, string>, vocabulary: set<string>) {
    && e.key in overlay && e.key !in vocabulary
    && (forall k :: k in overlay && k !in vocabulary ==> Le(e.key, k))
    && var threshold := if |Utf8(e.key)| <= 4 then 1 else 2;
       exists known :: (forall k :: k in known <==> k in vocabulary) && e.suggestion == Nearest(threshold, e.key, known)
  }

  /** Which table and vocabulary the reported key belongs to, by section. */
  ghost predicate ReportsKey(e: KeyError, m: Manifest, o: TypeMappingsOverlay) {
    match e.section
    case "types.scalars" => IsSmallestUnknown(e, o.scalars, m.types.scalars.Keys)
    case "types.containers" => IsSmallestUnknown(e, o.containers, m.types.containers.Keys)
    case "types.docblock_containers" =>
      IsSmallestUnknown(e, o.docblockContainers, m.types.containers.Keys + m.types.docblockContainers.Keys)
    case _ => false
  }

  class BackendManifest {
    var types: TypeMappings
    var naming: NamingConfig
    var imports: Option<map<string, string>>

    function Value(): Manifest
      reads this
    {
      Manifest(types, naming, imports)
    }

    constructor (m: Manifest)
      ensures Value() == m
    {
      types, naming, imports := m.types, m.naming, m.imports;
    }

    /** The three type tables, in order, each one checked before it is merged. */
    method ApplyTypes(overlay: Overlay) returns (r: Result<(), OverlayError>)
      requires overlay.types.Some?
      modifies this`types
      ensures Value() == TypesStage(old(Value()), overlay).manifest
      ensures r.Ok? ==> TypesStage(old(Value()), overlay).fault.None?
      ensures r.Err? ==> TypesStage(old(Value()), overlay).fault == Some(FaultOf(r.error))
      ensures r.Err? ==> r.error.BadKey? && ReportsKey(r.error.key, old(Value()), overlay.types.value)
    {
      hide IsSmallestUnknown, Reports;
      var tables := overlay.types.value;
      var scalars, s := MergeReplaceOnly(types.scalars, tables.scalars, "types.scalars");
      types := types.(scalars := scalars);
      if s.Err? {
        return Err(BadKey(s.error));
      }
      var containers, c := MergeReplaceOnly(types.containers, tables.containers, "types.containers");
      types := types.(containers := containers);
      if c.Err? {
        return Err(BadKey(c.error));
      }
      MergedWithin(old(types.containers), tables.containers);
      var containerNames := Enumerate(types.containers.Keys);
      var docblockNames := Enumerate(types.docblockContainers.Keys);
      var vocabulary := containerNames + docblockNames;
      var d := RejectUnknownKeys(tables.docblockContainers, vocabulary, "types.docblock_containers");
      if d.Err? {
        SmallestOfVocabulary(d.error, tables.docblockContainers, vocabulary,
                             types.containers.Keys + types.docblockContainers.Keys);
        return Err(BadKey(d.error));
      }
      var docblocks := InsertAll(types.docblockContainers, tables.docblockContainers);
      types := types.(docblockContainers := docblocks);
      return Ok(());
    }

    /** Merges the overlay; a refusal leaves what was merged before it in place. */
    method ApplyOverlay(overlay: Overlay) returns (r: Result<(), OverlayError>)
      modifies this
      ensures Value() == Applied(old(Value()), overlay).manifest
      ensures r.Ok? <==> Applied(old(Value()), overlay).fault.None?
      ensures r.Err? ==> Applied(old(Value()), overlay).fault == Some(FaultOf(r.error))
      ensures r.Err? && r.error.BadKey? ==> overlay.types.Some? && ReportsKey(r.error.key, old(Value()), overlay.types.value)
    {
      hide IsSmallestUnknown, Reports, ReportsKey, ScalarStage, ContainerStage, DocblockStage, VALID_CASE_NAMES;
      if overlay.types.Some? {
        var t := ApplyTypes(overlay);
        if t.Err? {
          return t;
        }
      }
      assert Outcome(Value(), None) == TypesStage(old(Value()), overlay);

      if overlay.naming.Some? {
        var n := overlay.naming.value;
        if n.structCase.Some? {
          if n.structCase.value !in VALID_CASE_NAMES {
            return Err(BadCase("struct_case", n.structCase.value));
          }
          naming := naming.(structCase := n.structCase.value);
        }
        if n.fnCase.Some? {
          if n.fnCase.value !in VALID_CASE_NAMES {
            return Err(BadCase("fn_case", n.fnCase.value));
          }
          naming := naming.(fnCase := n.fnCase.value);
        }
        if n.enumVariantCase.Some? {
          if n.enumVariantCase.value !in VALID_CASE_NAMES {
            return Err(BadCase("enum_variant_case", n.enumVariantCase.value));
          }
          naming := naming.(enumVariantCase := n.enumVariantCase.value);
        }
        if n.rowSuffix.Some? {
          naming := naming.(rowSuffix := n.rowSuffix.value);
        }
      }

      if overlay.imports.Some? {
        var rules := InsertAll(imports.GetOr(map[]), overlay.imports.value);
        imports := Some(rules);
      }
      return Ok(());
    }
  }

  lemma SmallestOfVocabulary(e: KeyError, overlay: map<string, string>, known: seq<string>, vocabulary: set<string>)
    requires Reports(e, overlay.Keys, known, if |Utf8(e.key)| <= 4 then 1 else 2)
    requires forall k :: k in known <==> k in vocabulary
    ensures IsSmallestUnknown(e, overlay, vocabulary)
  {
  }

  // ---------- any number of overlays ----------

  /** The manifest after a sequence of overlays, each applied as far as it goes. */
  function Run(m: Manifest, overlays: seq<Overlay>): Manifest
    decreases |overlays|
  {
    if overlays == [] then m else Run(Applied(m, overlays[0]).manifest, overlays[1..])
  }

  predicate ValidCases(n: NamingConfig) {
    n.structCase in VALID_CASE_NAMES && n.fnCase in VALID_CASE_NAMES && n.enumVariantCase in VALID_CASE_NAMES
  }

  /** What one overlay keeps, whether it succeeds or stops halfway. */
  predicate Keeps(before: Manifest, after: Manifest) {
    && after.types.scalars.Keys == before.types.scalars.Keys
    && after.types.containers.Keys == before.types.containers.Keys
    && before.types.docblockContainers.Keys <= after.types.docblockContainers.Keys
    && after.types.docblockContainers.Keys <= before.types.containers.Keys + before.types.docblockContainers.Keys
    && (ValidCases(before.naming) ==> ValidCases(after.naming))
    && (before.imports.Some? ==> after.imports.Some? && before.imports.value.Keys <= after.imports.value.Keys)
  }

  lemma OverlayKeeps(m: Manifest, o: Overlay)
    ensures Keeps(m, Applied(m, o).manifest)
  {
    TypesKeep(m, o);
    NamingKeeps(TypesStage(m, o).manifest, o);
  }

  lemma TypesKeep(m: Manifest, o: Overlay)
    ensures Keeps(m, TypesStage(m, o).manifest)
    ensures TypesStage(m, o).manifest.naming == m.naming && TypesStage(m, o).manifest.imports == m.imports
  {
    hide ValidCases;
    if o.types.Some? {
      var t := o.types.value;
      MergedKeys(m.types.scalars, t.scalars);
      MergedKeys(m.types.containers, t.containers);
      MergedKeys(m.types.docblockContainers, t.docblockContainers);
      MergedWithin(m.types.scalars, t.scalars);
      MergedWithin(m.types.containers, t.containers);
    }
  }

  lemma MergedWithin(target: map<string, string>, overlay: map<string, string>)
    ensures KnownKeys(overlay, target.Keys) ==> (target + overlay).Keys == target.Keys
  {
  }

  lemma MergedKeys(target: map<string, string>, overlay: map<string, string>)
    ensures (target + overlay).Keys == target.Keys + overlay.Keys
  {
  }

  lemma NamingKeeps(m: Manifest, o: Overlay)
    ensures Keeps(m, NamingStage(m, o).manifest)
    ensures NamingStage(m, o).manifest.types == m.types && NamingStage(m, o).manifest.imports == m.imports
  {
    hide VALID_CASE_NAMES;
  }

  lemma {:induction false} RunKeeps(m: Manifest, overlays: seq<Overlay>)
    ensures Keeps(m, Run(m, overlays))
    decreases |overlays|
  {
    if overlays != [] {
      hide Applied;
      var next := Applied(m, overlays[0]).manifest;
      OverlayKeeps(m, overlays[0]);
      RunKeeps(next, overlays[1..]);
    }
  }

  /**
   Whatever overlays are applied, and however they fail, every neutral type string resolves or
   fails as before, for the same reason, in both positions and with or without a nullable wrapper.
   */
  lemma RunKeepsVerdicts(m: Manifest, overlays: seq<Overlay>, neutral: string, nullable: bool, position: TypeResolver.Position)
    ensures var after := Run(m, overlays);
            var (r, q) := (TypeResolver.ResolveType(neutral, m.types, m.naming, nullable, position),
                           TypeResolver.ResolveType(neutral, after.types, after.naming, nullable, position));
            (r.Ok? <==> q.Ok?) && (r.Err? ==> r.error == q.error)
  {
    hide TypeResolver.ResolveType, Run;
    RunKeeps(m, overlays);
    var after := Run(m, overlays);
    TypeResolver.TypeVerdictDependsOnVocabulary(neutral, m.types, after.types, m.naming, after.naming, nullable, position);
  }

  /** A successful overlay takes effect completely: applying it again changes nothing. */
  lemma OverlayIdempotent(m: Manifest, o: Overlay)
    requires Applied(m, o).fault.None?
    ensures Applied(Applied(m, o).manifest, o) == Applied(m, o)
  {
    hide VALID_CASE_NAMES;
    var t := TypesStage(m, o).manifest;
    var n := NamingStage(t, o).manifest;
    var final := Applied(m, o).manifest;
    TypesAgain(m, o, final);
    NamingAgain(t, o, final);
    if o.imports.Some? {
      MergeAgain(t.imports.GetOr(map[]), o.imports.value);
    }
  }

  lemma MergeAgain(target: map<string, string>, overlay: map<string, string>)
    ensures target + overlay + overlay == target + overlay
  {
  }

  lemma TypesAgain(m: Manifest, o: Overlay, final: Manifest)
    requires TypesStage(m, o).fault.None? && final.types == TypesStage(m, o).manifest.types
    ensures TypesStage(final, o) == Outcome(final, None)
  {
    if o.types.Some? {
      var t := o.types.value;
      MergeAgain(m.types.scalars, t.scalars);
      MergeAgain(m.types.containers, t.containers);
      MergeAgain(m.types.docblockContainers, t.docblockContainers);
    }
  }

  lemma NamingAgain(m: Manifest, o: Overlay, final: Manifest)
    requires NamingStage(m, o).fault.None? && final.naming == NamingStage(m, o).manifest.naming
    ensures NamingStage(final, o) == Outcome(final, None)
  {
    hide VALID_CASE_NAMES;
  }

  /** A key `over` mentions has its value, every other key its old one. */
  predicate MergedAt(before: map<string, string>, over: map<string, string>, after: map<string, string>, key: string) {
    && (key in after <==> key in before || key in over)
    && (key in after ==> after[key] == if key in over then over[key] else before[key])
  }

  /** Per-key merging in every table, and value by value in the naming section. */
  lemma LeafMerge(m: Manifest, o: Overlay, key: string)
    requires Applied(m, o).fault.None?
    ensures var (before, after) := (m, Applied(m, o).manifest);
            && (o.types.None? ==> after.types == before.types)
            && (o.types.Some? ==>
                  && MergedAt(before.types.scalars, o.types.value.scalars, after.types.scalars, key)
                  && MergedAt(before.types.containers, o.types.value.containers, after.types.containers, key)
                  && MergedAt(before.types.docblockContainers, o.types.value.docblockContainers, after.types.docblockContainers, key))
            && (o.imports.None? ==> after.imports == before.imports)
            && (o.imports.Some? ==>
                  after.imports.Some? && MergedAt(before.imports.GetOr(map[]), o.imports.value, after.imports.value, key))
  {
    hide VALID_CASE_NAMES, KnownKeys, MergedAt;
    NamingKeeps(TypesStage(m, o).manifest, o);
    if o.types.Some? {
      MergeAt(m.types.scalars, o.types.value.scalars, key);
      MergeAt(m.types.containers, o.types.value.containers, key);
      MergeAt(m.types.docblockContainers, o.types.value.docblockContainers, key);
    }
    if o.imports.Some? {
      MergeAt(m.imports.GetOr(map[]), o.imports.value, key);
    }
  }

  lemma MergeAt(before: map<string, string>, over: map<string, string>, key: string)
    ensures MergedAt(before, over, before + over, key)
  {
  }

  /** The naming section is replaced value by value. */
  lemma NamingMerge(m: Manifest, o: Overlay)
    requires Applied(m, o).fault.None?
    ensures var (before, after) := (m.naming, Applied(m, o).manifest.naming);
            var over := o.naming.GetOr(NamingOverlay(None, None, None, None));
            && after.structCase == over.structCase.GetOr(before.structCase)
            && after.fnCase == over.fnCase.GetOr(before.fnCase)
            && after.enumVariantCase == over.enumVariantCase.GetOr(before.enumVariantCase)
            && after.rowSuffix == over.rowSuffix.GetOr(before.rowSuffix)
  {
    hide VALID_CASE_NAMES, KnownKeys;
    TypesKeep(m, o);
  }

  /**
   When an overlay is refused: at the first section, in order, that mentions an unknown key or
   case name. Here is the verdict read off the overlay and the original manifest alone.
   */
  lemma AcceptedIff(m: Manifest, o: Overlay)
    ensures Applied(m, o).fault.None?
            <==> (o.types.Some? ==>
                    && o.types.value.scalars.Keys <= m.types.scalars.Keys
                    && o.types.value.containers.Keys <= m.types.containers.Keys
                    && o.types.value.docblockContainers.Keys <= m.types.containers.Keys + m.types.docblockContainers.Keys)
                 && (o.naming.Some? ==>
                    && !BadCaseName(o.naming.value.structCase)
                    && !BadCaseName(o.naming.value.fnCase)
                    && !BadCaseName(o.naming.value.enumVariantCase))
  {
    hide BadCaseName;
    if o.types.Some? {
      MergedKeys(m.types.scalars, o.types.value.scalars);
      MergedKeys(m.types.containers, o.types.value.containers);
    }
  }
}
