/**
 Degradation and emission together: a composite reached only through a struct the backend did not
 render is not defined in the generated file.
 */
module DefinitionEmission {
  import opened Wrappers
  import opened NeutralTypes
  import opened CompositeGraph
  import CompositeOrder
  import opened CompositeEmission
  import opened NestedDegradation

  /** What these two passes read of an analyzed query. */
  datatype Analyzed = Analyzed(
    columns: seq<Column>, paramTypes: seq<string>, composites: seq<Composite>, structs: seq<NestedStruct>)

  function Types(columns: seq<Column>): (r: seq<string>)
    ensures forall t :: t in r <==> exists c :: c in columns && c.neutralType == t
  {
    var r := seq(|columns|, i requires 0 <= i < |columns| => columns[i].neutralType);
    assert forall i :: 0 <= i < |columns| ==> r[i] == columns[i].neutralType && columns[i] in columns;
    assert forall c :: c in columns ==> exists i :: 0 <= i < |columns| && columns[i] == c;
    r
  }

  function AsQuery(a: Analyzed): Query {
    Query(Types(a.columns), a.paramTypes, a.composites)
  }

  // ---------- which composites rendered structs name ----------

  ghost predicate HasDef(defs: seq<NestedStructDef>, name: string) {
    exists d :: d in defs && d.name == name
  }

  /** The backend rendered a struct of this name. */
  ghost predicate Rendered(structs: seq<NestedStruct>, backend: Backend, name: string) {
    exists s :: s in structs && s.name == name && backend.generate(s).Ok? && backend.generate(s).value.Some?
  }

  lemma {:induction false} DefsAreRendered(structs: seq<NestedStruct>, backend: Backend, name: string)
    requires Definitions(structs, backend).Ok?
    ensures HasDef(Definitions(structs, backend).value, name) <==> Rendered(structs, backend, name)
    decreases |structs|
  {
    if structs != [] {
      var init, last := structs[..|structs| - 1], structs[|structs| - 1];
      DefsAreRendered(init, backend, name);
      assert forall s :: s in structs <==> s in init || s == last;
      assert backend.generate(last).Ok?;
      if backend.generate(last).value.Some? {
        var def := NestedStructDef(last.name, backend.generate(last).value.value);
        var (rest, all) := (Definitions(init, backend).value, Definitions(structs, backend).value);
        assert all == rest + [def];
        assert forall d :: d in all <==> d in rest || d == def;
      }
    }
  }

  ghost predicate NamedByDefined(structs: seq<NestedStruct>, defs: seq<NestedStructDef>, name: string) {
    exists s, f :: s in structs && HasDef(defs, s.name) && f in s.fields && Named(f.neutralType) == Some(name)
  }

  /** `supported.iter().any(|def| def.name == name)`. */
  method IsSupported(defs: seq<NestedStructDef>, name: string) returns (found: bool)
    ensures found <==> HasDef(defs, name)
  {
    for i := 0 to |defs|
      invariant forall d :: d in defs[..i] ==> d.name != name
    {
      if defs[i].name == name {
        return true;
      }
      assert defs[..i + 1] == defs[..i] + [defs[i]];
    }
    assert defs[..|defs|] == defs;
    return false;
  }

  /** `NestedTypeRefs::collect`, for composites: the names in fields of structs that have a definition. */
  method CollectComposites(structs: seq<NestedStruct>, defs: seq<NestedStructDef>) returns (refs: set<string>)
    ensures forall n :: n in refs <==> NamedByDefined(structs, defs, n)
  {
    hide Named, HasDef, NamedByDefined, Innermost;
    refs := {};
    NothingNamed(defs);
    assert structs[..0] == [];
    for i := 0 to |structs|
      invariant forall n :: n in refs <==> NamedByDefined(structs[..i], defs, n)
    {
      var nested := structs[i];
      assert structs[..i + 1] == structs[..i] + [nested];
      var supported := IsSupported(defs, nested.name);
      var names := FieldComposites(nested.fields);
      OneMoreNamed(structs[..i], nested, defs);
      if supported {
        refs := refs + names;
      }
    }
    assert structs[..|structs|] == structs;
  }

  ghost predicate InFields(fields: seq<NestedField>, name: string) {
    exists f :: f in fields && Named(f.neutralType) == Some(name)
  }

  method FieldComposites(fields: seq<NestedField>) returns (names: set<string>)
    ensures forall n :: n in names <==> InFields(fields, n)
  {
    hide Innermost;
    names := {};
    for i := 0 to |fields|
      invariant forall n :: n in names <==> InFields(fields[..i], n)
    {
      assert fields[..i + 1] == fields[..i] + [fields[i]];
      assert forall f :: f in fields[..i + 1] <==> f in fields[..i] || f == fields[i];
      var unwrapped := UnwrapContainers(fields[i].neutralType);
      var name := CompositeName(unwrapped);
      assert name == Named(fields[i].neutralType);
      if name.Some? {
        names := names + {name.value};
      }
    }
    assert fields[..|fields|] == fields;
  }

  lemma NothingNamed(defs: seq<NestedStructDef>)
    ensures forall n :: !NamedByDefined([], defs, n)
  {
  }

  lemma OneMoreNamed(structs: seq<NestedStruct>, nested: NestedStruct, defs: seq<NestedStructDef>)
    ensures forall n :: NamedByDefined(structs + [nested], defs, n)
                        <==> NamedByDefined(structs, defs, n) || (HasDef(defs, nested.name) && InFields(nested.fields, n))
  {
    hide Named, HasDef;
    var all := structs + [nested];
    assert forall s :: s in all <==> s in structs || s == nested;
    forall n ensures NamedByDefined(all, defs, n)
                     <==> NamedByDefined(structs, defs, n) || (HasDef(defs, nested.name) && InFields(nested.fields, n)) {
      if NamedByDefined(all, defs, n) {
        var s, f :| s in all && HasDef(defs, s.name) && f in s.fields && Named(f.neutralType) == Some(n);
        assert s == nested ==> InFields(nested.fields, n);
      }
      if HasDef(defs, nested.name) && InFields(nested.fields, n) {
        var f :| f in nested.fields && Named(f.neutralType) == Some(n);
        assert nested in all;
      }
    }
  }

  // ---------- the two passes composed ----------

  /** Named by a column, a parameter or a field of a rendered struct. */
  ghost predicate Used(a: Analyzed, backend: Backend, c: Composite) {
    && c in a.composites
    && (|| (exists col :: col in a.columns && Named(col.neutralType) == Some(c.sqlName))
        || (exists t :: t in a.paramTypes && Named(t) == Some(c.sqlName))
        || NamedInRendered(a.structs, backend, c.sqlName))
  }

  ghost predicate NamedInRendered(structs: seq<NestedStruct>, backend: Backend, name: string) {
    exists s, f :: s in structs && Rendered(structs, backend, s.name) && f in s.fields && Named(f.neutralType) == Some(name)
  }

  lemma RootsAreUsed(a: Analyzed, backend: Backend, nestedRefs: set<string>, c: Composite)
    requires forall n :: n in nestedRefs <==> NamedInRendered(a.structs, backend, n)
    ensures IsRoot(AsQuery(a), nestedRefs, c) <==> Used(a, backend, c)
  {
    hide Named, NamedInRendered, ReferencedByColumns;
    ReferencedMeansNamed(AsQuery(a), c.sqlName);
    var types := Types(a.columns);
    assert (exists t :: t in types && Named(t) == Some(c.sqlName))
           <==> exists col :: col in a.columns && Named(col.neutralType) == Some(c.sqlName) by {
      if col :| col in a.columns && Named(col.neutralType) == Some(c.sqlName) {
        assert col.neutralType in types;
      }
    }
  }

  /**
   Degrades, collects, emits. What is defined is exactly what a column, a parameter or a struct the
   backend rendered leads to, dependencies first; or the backend's first error is the result.
   */
  method EmitDefinitions(a: Analyzed, backend: Backend, nestedCompositeNames: set<string>)
    returns (r: Result<(Degraded, seq<Emission>), string>)
    requires UniqueNames(a.composites)
    ensures r.Err? <==> Definitions(a.structs, backend).Err?
    ensures r.Err? ==> r.error == Definitions(a.structs, backend).error
    ensures r.Ok? ==> r.value.0 == Degraded(DegradeColumns(a.columns, Unsupported(a.structs, backend), backend),
                                            Definitions(a.structs, backend).value,
                                            Reports(a.columns, Unsupported(a.structs, backend), backend))
    ensures r.Ok? ==>
              forall c :: c in Defined(r.value.1)
                <==> c in a.composites && exists u :: Used(a, backend, u) && Reaches(a.composites, u.sqlName, c.sqlName)
    ensures r.Ok? ==> UniqueNames(Defined(r.value.1)) && DependenciesFirst(a.composites, Defined(r.value.1))
    ensures r.Ok? ==> InOrderOf(CompositeOrder.Order(a.composites), Defined(r.value.1))
    ensures r.Ok? && Acyclic(a.composites) ==> TiesAsDecided(a.composites, Defined(r.value.1))
    ensures r.Ok? && AlreadyOrdered(a.composites) ==> InOrderOf(a.composites, Defined(r.value.1))
    ensures r.Ok? ==>
              forall e :: e in r.value.1
                ==> (e.nested <==> NamedInRendered(a.structs, backend, e.composite.sqlName) || e.composite.sqlName in nestedCompositeNames)
  {
    hide Definitions, DegradeColumns, Unsupported, Reports, Used, Reaches, UniqueNames, DependenciesFirst, NamedInRendered,
         NamedByDefined, IsRoot, AsQuery, Defined, InOrderOf, Acyclic, TiesAsDecided, AlreadyOrdered, CompositeOrder.Order;
    var d := DegradeUnsupportedNestedStructs(a.columns, a.structs, backend);
    if d.Err? {
      return Err(d.error);
    }
    var nestedRefs := CollectComposites(a.structs, d.value.defs);
    DefinedIsRendered(a.structs, backend);
    var query := AsQuery(a);
    QueryComposites(a);
    var emissions := EmitComposites(query, nestedRefs, nestedCompositeNames);
    NeededIsUsed(a, backend, nestedRefs);
    r := Ok((d.value, emissions));
  }

  lemma QueryComposites(a: Analyzed)
    ensures AsQuery(a).composites == a.composites
  {
  }

  lemma DefinedIsRendered(structs: seq<NestedStruct>, backend: Backend)
    requires Definitions(structs, backend).Ok?
    ensures forall n :: NamedByDefined(structs, Definitions(structs, backend).value, n) <==> NamedInRendered(structs, backend, n)
  {
    hide Named, HasDef, Rendered, Definitions;
    forall name ensures HasDef(Definitions(structs, backend).value, name) <==> Rendered(structs, backend, name) {
      DefsAreRendered(structs, backend, name);
    }
  }

  lemma NeededIsUsed(a: Analyzed, backend: Backend, nestedRefs: set<string>)
    requires forall n :: n in nestedRefs <==> NamedInRendered(a.structs, backend, n)
    ensures forall name :: Needed(AsQuery(a), nestedRefs, name)
                           <==> exists u :: Used(a, backend, u) && Reaches(a.composites, u.sqlName, name)
  {
    hide NamedInRendered, Used, IsRoot, Reaches;
    forall c ensures IsRoot(AsQuery(a), nestedRefs, c) <==> Used(a, backend, c) {
      RootsAreUsed(a, backend, nestedRefs, c);
    }
  }

  /**
   A struct the backend refuses, and renders under no other struct of its name, adds nothing to what
   is used: whatever only its fields lead to is not defined.
   */
  lemma RefusedStructAddsNothing(a: Analyzed, s: NestedStruct, backend: Backend, c: Composite)
    requires Refused(s, backend) && !Rendered(a.structs, backend, s.name)
    ensures Used(a.(structs := a.structs + [s]), backend, c) <==> Used(a, backend, c)
  {
    hide Named;
    var all := a.structs + [s];
    assert forall t :: t in all <==> t in a.structs || t == s;
    assert forall n :: Rendered(all, backend, n) <==> Rendered(a.structs, backend, n);
    assert NamedInRendered(all, backend, c.sqlName) <==> NamedInRendered(a.structs, backend, c.sqlName);
  }

  /** Degrading columns hides no composite: a rewritten column named none before and names none after. */
  lemma DegradingKeepsReferences(columns: seq<Column>, unsupported: set<string>, backend: Backend, i: nat)
    requires i < |columns|
    ensures Named(DegradeColumns(columns, unsupported, backend)[i].neutralType) == Named(columns[i].neutralType)
  {
    var before := columns[i].neutralType;
    if NeedsFallback(columns[i], unsupported) {
      assert before[0] == 'j';
    }
  }
}
