/** `degrade_unsupported_nested_structs`: columns whose nested struct a backend cannot render. */
module NestedDegradation {
  import opened Wrappers
  import opened NeutralTypes
  import opened Naming

  // ---------- the shape of a nested column ----------

  datatype Shape = Shape(isArray: bool, elementNullable: bool, name: string)

  function NestedStructShape(neutralType: string): Option<Shape> {
    var inner := Enclosed(neutralType, "json_nested<");
    if inner.None? then None
    else
      var element := Enclosed(inner.value, "array<");
      if element.None? then Some(Shape(false, false, inner.value))
      else
        var name := Enclosed(element.value, "nullable<");
        if name.Some? then Some(Shape(true, true, name.value)) else Some(Shape(true, false, element.value))
  }

  function PrintShape(shape: Shape): string {
    var element := if shape.elementNullable then "nullable<" + shape.name + ">" else shape.name;
    "json_nested<" + (if shape.isArray then "array<" + element + ">" else element) + ">"
  }

  /** The parser inverts the printer exactly for names that do not themselves look like the next wrapper. */
  lemma ShapeOfPrinted(shape: Shape)
    requires shape.elementNullable ==> shape.isArray
    ensures NestedStructShape(PrintShape(shape)) == Some(shape)
            <==> (!shape.isArray ==> Enclosed(shape.name, "array<").None?)
                 && (shape.isArray && !shape.elementNullable ==> Enclosed(shape.name, "nullable<").None?)
  {
    hide Enclosed;
    var element := if shape.elementNullable then "nullable<" + shape.name + ">" else shape.name;
    EnclosedOf("nullable<", shape.name);
    EnclosedOf("array<", element);
    EnclosedOf("json_nested<", if shape.isArray then "array<" + element + ">" else element);
  }

  /** And every parsed type is the print of its shape. */
  lemma PrintedShape(neutralType: string)
    requires NestedStructShape(neutralType).Some?
    ensures PrintShape(NestedStructShape(neutralType).value) == neutralType
  {
    hide Enclosed;
  }

  // ---------- the pass ----------

  datatype Column = Column(
    name: string, neutralType: string, nullable: bool, joinGroup: Option<string>, nullableBeforeJoin: bool, sqlType: string)

  datatype NestedField = NestedField(name: string, neutralType: string, nullable: bool)
  datatype NestedStruct = NestedStruct(name: string, fields: seq<NestedField>)
  datatype NestedStructDef = NestedStructDef(name: string, code: string)
  datatype Degradation = Degradation(column: string, structName: string, fallbackType: string, backend: string)

  /** A backend, as far as this pass sees it: rendering a struct yields code, a refusal, or an error. */
  datatype Backend = Backend(
    name: string, scalars: set<string>, generate: NestedStruct -> Result<Option<string>, string>)

  datatype Degraded = Degraded(columns: seq<Column>, defs: seq<NestedStructDef>, degradations: seq<Degradation>)

  /** The definitions the backend renders, or the first error it raises. */
  function Definitions(structs: seq<NestedStruct>, backend: Backend): Result<seq<NestedStructDef>, string> {
    if structs == [] then Ok([])
    else
      var rest := Definitions(structs[..|structs| - 1], backend);
      var last := structs[|structs| - 1];
      if rest.Err? then rest
      else
        match backend.generate(last)
        case Err(e) => Err(e)
        case Ok(Some(code)) => Ok(rest.value + [NestedStructDef(last.name, code)])
        case Ok(None) => rest
  }

  predicate Refused(s: NestedStruct, backend: Backend) {
    backend.generate(s) == Ok(None)
  }

  /** Struct names, as they appear in column types, that the backend does not render. */
  function Unsupported(structs: seq<NestedStruct>, backend: Backend): set<string> {
    set s | s in structs && Refused(s, backend) :: Pascal(s.name)
  }

  predicate NeedsFallback(c: Column, unsupported: set<string>) {
    NestedStructShape(c.neutralType).Some? && NestedStructShape(c.neutralType).value.name in unsupported
  }

  function Fallback(c: Column, backend: Backend): string {
    var shape := NestedStructShape(c.neutralType);
    if shape.Some? && shape.value.isArray && "json_array" in backend.scalars then "json_array" else "json"
  }

  function DegradeColumn(c: Column, unsupported: set<string>, backend: Backend): Column {
    if NeedsFallback(c, unsupported) then c.(neutralType := Fallback(c, backend)) else c
  }

  function Report(c: Column, backend: Backend): Degradation {
    Degradation(c.name, NestedStructShape(c.neutralType).GetOr(Shape(false, false, "")).name, Fallback(c, backend), backend.name)
  }

  function DegradeColumns(cs: seq<Column>, unsupported: set<string>, backend: Backend): (r: seq<Column>)
    ensures |r| == |cs| && forall i :: 0 <= i < |cs| ==> r[i] == DegradeColumn(cs[i], unsupported, backend)
  {
    if cs == [] then []
    else DegradeColumns(cs[..|cs| - 1], unsupported, backend) + [DegradeColumn(cs[|cs| - 1], unsupported, backend)]
  }

  function Reports(cs: seq<Column>, unsupported: set<string>, backend: Backend): seq<Degradation> {
    if cs == [] then []
    else
      var last := cs[|cs| - 1];
      Reports(cs[..|cs| - 1], unsupported, backend) + (if NeedsFallback(last, unsupported) then [Report(last, backend)] else [])
  }

  method DegradeUnsupportedNestedStructs(columns: seq<Column>, structs: seq<NestedStruct>, backend: Backend)
    returns (r: Result<Degraded, string>)
    ensures Definitions(structs, backend).Err? ==> r == Err(Definitions(structs, backend).error)
    ensures Definitions(structs, backend).Ok? ==>
              r == Ok(Degraded(DegradeColumns(columns, Unsupported(structs, backend), backend),
                               Definitions(structs, backend).value,
                               Reports(columns, Unsupported(structs, backend), backend)))
  {
    hide NeedsFallback, Fallback, Unsupported, Definitions, DegradeColumns, Reports, Pascal, NestedStructShape;
    NothingYet(backend);
    if structs == [] {
      NothingUnsupported(columns, {}, backend);
      return Ok(Degraded(columns, [], []));
    }
    var unsupported: set<string> := {};
    var defs: seq<NestedStructDef> := [];
    assert structs[..0] == [];
    for i := 0 to |structs|
      invariant Definitions(structs[..i], backend) == Ok(defs)
      invariant unsupported == Unsupported(structs[..i], backend)
    {
      var nested := structs[i];
      assert structs[..i + 1] == structs[..i] + [nested];
      OneMoreStruct(structs[..i], nested, backend);
      match backend.generate(nested) {
        case Err(e) =>
          FirstErrorStands(structs, i, backend);
          return Err(e);
        case Ok(Some(code)) =>
          defs := defs + [NestedStructDef(nested.name, code)];
        case Ok(None) =>
          var name := ToPascalCase(nested.name);
          unsupported := unsupported + {name};
      }
    }
    assert structs[..|structs|] == structs;
    if unsupported == {} {
      NothingUnsupported(columns, unsupported, backend);
      return Ok(Degraded(columns, defs, []));
    }
    var degraded, degradations := DegradeAll(columns, unsupported, backend);
    return Ok(Degraded(degraded, defs, degradations));
  }

  /** The mapping over the columns, which collects a report whenever it rewrites one. */
  method DegradeAll(columns: seq<Column>, unsupported: set<string>, backend: Backend)
    returns (degraded: seq<Column>, degradations: seq<Degradation>)
    ensures degraded == DegradeColumns(columns, unsupported, backend)
    ensures degradations == Reports(columns, unsupported, backend)
  {
    hide NestedStructShape, DegradeColumns, Reports;
    var supportsJsonArray := "json_array" in backend.scalars;
    degradations, degraded := [], [];
    NothingUnsupported([], {}, backend);
    NoColumns(unsupported, backend);
    assert columns[..0] == [];
    for i := 0 to |columns|
      invariant degraded == DegradeColumns(columns[..i], unsupported, backend)
      invariant degradations == Reports(columns[..i], unsupported, backend)
    {
      var col := columns[i];
      assert columns[..i + 1] == columns[..i] + [col];
      OneMoreColumn(columns[..i], col, unsupported, backend);
      var shape := NestedStructShape(col.neutralType);
      if shape.Some? && shape.value.name in unsupported {
        var fallbackType := if shape.value.isArray && supportsJsonArray then "json_array" else "json";
        degradations := degradations + [Degradation(col.name, shape.value.name, fallbackType, backend.name)];
        col := col.(neutralType := fallbackType);
      }
      degraded := degraded + [col];
    }
    assert columns[..|columns|] == columns;
  }

  lemma NoColumns(unsupported: set<string>, backend: Backend)
    ensures DegradeColumns([], unsupported, backend) == [] && Reports([], unsupported, backend) == []
  {
  }

  lemma OneMoreColumn(cs: seq<Column>, c: Column, unsupported: set<string>, backend: Backend)
    ensures DegradeColumns(cs + [c], unsupported, backend)
         == DegradeColumns(cs, unsupported, backend) + [DegradeColumn(c, unsupported, backend)]
    ensures Reports(cs + [c], unsupported, backend)
         == Reports(cs, unsupported, backend) + (if NeedsFallback(c, unsupported) then [Report(c, backend)] else [])
  {
    hide DegradeColumn, NeedsFallback, Report;
    assert (cs + [c])[..|cs + [c]| - 1] == cs;
  }

  lemma NothingYet(backend: Backend)
    ensures Definitions([], backend) == Ok([]) && Unsupported([], backend) == {}
  {
  }

  lemma OneMoreStruct(structs: seq<NestedStruct>, nested: NestedStruct, backend: Backend)
    ensures Unsupported(structs + [nested], backend)
         == Unsupported(structs, backend) + (if Refused(nested, backend) then {Pascal(nested.name)} else {})
    ensures Definitions(structs, backend).Ok? ==>
              Definitions(structs + [nested], backend)
              == match backend.generate(nested)
                 case Err(e) => Err(e)
                 case Ok(Some(code)) => Ok(Definitions(structs, backend).value + [NestedStructDef(nested.name, code)])
                 case Ok(None) => Definitions(structs, backend)
  {
    hide Pascal;
    assert (structs + [nested])[..|structs + [nested]| - 1] == structs;
    assert forall s :: s in structs + [nested] <==> s in structs || s == nested;
  }

  lemma {:induction false} FirstErrorStands(structs: seq<NestedStruct>, i: nat, backend: Backend)
    requires i < |structs| && Definitions(structs[..i], backend).Ok? && backend.generate(structs[i]).Err?
    ensures Definitions(structs, backend) == Err(backend.generate(structs[i]).error)
    decreases |structs|
  {
    var n := |structs| - 1;
    if i < n {
      assert structs[..n][..i] == structs[..i];
      FirstErrorStands(structs[..n], i, backend);
    }
  }

  lemma {:induction false} NothingUnsupported(columns: seq<Column>, unsupported: set<string>, backend: Backend)
    requires unsupported == {}
    ensures DegradeColumns(columns, unsupported, backend) == columns && Reports(columns, unsupported, backend) == []
    decreases |columns|
  {
    if columns != [] {
      NothingUnsupported(columns[..|columns| - 1], unsupported, backend);
    }
  }

  // ---------- what the pass guarantees ----------

  lemma FallbackHasNoShape(c: Column, backend: Backend)
    ensures NestedStructShape(Fallback(c, backend)).None?
  {
    assert "json"[0] == 'j' && |"json_nested<"| > |"json_array"|;
  }

  /**
   Columns keep their number, their order and everything but the type; the type changes exactly
   where it names an unsupported struct, and then to a type that names none.
   */
  lemma DegradationIsPrecise(columns: seq<Column>, unsupported: set<string>, backend: Backend, i: nat)
    requires i < |columns|
    ensures var after := DegradeColumns(columns, unsupported, backend);
            && |after| == |columns|
            && after[i].(neutralType := columns[i].neutralType) == columns[i]
            && (after[i] != columns[i] <==> NeedsFallback(columns[i], unsupported))
            && !NeedsFallback(after[i], unsupported)
            && (NeedsFallback(columns[i], unsupported) ==>
                  after[i].neutralType == if IsArrayText(columns[i].neutralType) && "json_array" in backend.scalars then "json_array" else "json")
  {
    hide NestedStructShape, IsArrayText;
    FallbackHasNoShape(columns[i], backend);
    if NeedsFallback(columns[i], unsupported) {
      ArrayShapes(columns[i].neutralType);
    }
  }

  /** How an aggregated array of structs is spelled. */
  predicate IsArrayText(neutralType: string) {
    "json_nested<array<" <= neutralType && |neutralType| >= 20 && neutralType[|neutralType| - 2..] == ">>"
  }

  lemma ArrayShapes(neutralType: string)
    requires NestedStructShape(neutralType).Some?
    ensures NestedStructShape(neutralType).value.isArray <==> IsArrayText(neutralType)
  {
    var inner := Enclosed(neutralType, "json_nested<").value;
    assert neutralType == "json_nested<" + inner + ">";
    if Enclosed(inner, "array<").Some? {
      assert inner == "array<" + Enclosed(inner, "array<").value + ">";
    }
    if IsArrayText(neutralType) {
      assert "array<" <= inner;
      assert inner[|inner| - 1] == neutralType[|neutralType| - 2..][0];
    }
  }

  /** A report names the column, the struct its type names, the type it got and the backend. */
  lemma ReportSays(c: Column, unsupported: set<string>, backend: Backend)
    requires NeedsFallback(c, unsupported)
    ensures Report(c, backend).column == c.name
    ensures Report(c, backend).structName == NestedStructShape(c.neutralType).value.name
    ensures Report(c, backend).fallbackType == DegradeColumn(c, unsupported, backend).neutralType
    ensures Report(c, backend).backend == backend.name
  {
  }

  /** `at` lists the rewritten columns in order, and each has its report at the same place. */
  ghost predicate ReportedAt(columns: seq<Column>, unsupported: set<string>, backend: Backend, reports: seq<Degradation>, at: seq<int>) {
    && |at| == |reports|
    && (forall k :: 0 <= k < |at| ==> 0 <= at[k] < |columns| && reports[k] == Report(columns[at[k]], backend))
    && (forall k, l :: 0 <= k < l < |at| ==> at[k] < at[l])
    && (forall i :: 0 <= i < |columns| ==> (i in at <==> NeedsFallback(columns[i], unsupported)))
  }

  /** Exactly one report per rewritten column, in column order. */
  lemma {:induction false} OneReportPerRewrite(columns: seq<Column>, unsupported: set<string>, backend: Backend) returns (at: seq<int>)
    ensures ReportedAt(columns, unsupported, backend, Reports(columns, unsupported, backend), at)
    decreases |columns|
  {
    hide NeedsFallback, Report, ReportedAt;
    if columns == [] {
      at := [];
      NothingReported(unsupported, backend);
    } else {
      var n := |columns| - 1;
      at := OneReportPerRewrite(columns[..n], unsupported, backend);
      var reports := Reports(columns[..n], unsupported, backend);
      if NeedsFallback(columns[n], unsupported) {
        OneMoreReported(columns, unsupported, backend, reports, at);
        at := at + [n];
      } else {
        NoneMoreReported(columns, unsupported, backend, reports, at);
        assert reports + [] == reports;
      }
    }
  }

  lemma NothingReported(unsupported: set<string>, backend: Backend)
    ensures ReportedAt([], unsupported, backend, [], [])
  {
  }

  lemma OneMoreReported(columns: seq<Column>, unsupported: set<string>, backend: Backend, reports: seq<Degradation>, at: seq<int>)
    requires columns != [] && NeedsFallback(columns[|columns| - 1], unsupported)
    requires ReportedAt(columns[..|columns| - 1], unsupported, backend, reports, at)
    ensures ReportedAt(columns, unsupported, backend, reports + [Report(columns[|columns| - 1], backend)], at + [|columns| - 1])
  {
    hide NeedsFallback, Report;
    var (n, all) := (|columns| - 1, at + [|columns| - 1]);
    assert forall i :: i in all <==> i in at || i == n;
    assert forall i :: 0 <= i < n ==> columns[..n][i] == columns[i];
    assert n !in at;
  }

  lemma NoneMoreReported(columns: seq<Column>, unsupported: set<string>, backend: Backend, reports: seq<Degradation>, at: seq<int>)
    requires columns != [] && !NeedsFallback(columns[|columns| - 1], unsupported)
    requires ReportedAt(columns[..|columns| - 1], unsupported, backend, reports, at)
    ensures ReportedAt(columns, unsupported, backend, reports, at)
  {
    hide NeedsFallback, Report;
    var n := |columns| - 1;
    assert forall i :: 0 <= i < n ==> columns[..n][i] == columns[i];
    assert n !in at;
  }

  /** A second pass over degraded columns changes nothing and reports nothing. */
  lemma {:induction false} DegradationIdempotent(columns: seq<Column>, unsupported: set<string>, backend: Backend)
    ensures var after := DegradeColumns(columns, unsupported, backend);
            DegradeColumns(after, unsupported, backend) == after && Reports(after, unsupported, backend) == []
    decreases |columns|
  {
    hide NeedsFallback, Fallback, Report;
    if columns != [] {
      var n := |columns| - 1;
      DegradationIdempotent(columns[..n], unsupported, backend);
      DegradationIsPrecise(columns, unsupported, backend, n);
      var after := DegradeColumns(columns, unsupported, backend);
      assert after[..n] == DegradeColumns(columns[..n], unsupported, backend);
    }
  }

  /**
   The whole pass run twice: when the backend renders what it can, the second run returns the same
   columns and definitions and no report.
   */
  lemma PassIdempotent(columns: seq<Column>, structs: seq<NestedStruct>, backend: Backend)
    ensures var unsupported := Unsupported(structs, backend);
            var after := DegradeColumns(columns, unsupported, backend);
            && (forall c :: c in after ==> !NeedsFallback(c, unsupported))
            && DegradeColumns(after, unsupported, backend) == after
            && Reports(after, unsupported, backend) == []
  {
    hide NeedsFallback, Fallback, Unsupported;
    var unsupported := Unsupported(structs, backend);
    var after := DegradeColumns(columns, unsupported, backend);
    DegradationIdempotent(columns, unsupported, backend);
    forall c | c in after ensures !NeedsFallback(c, unsupported) {
      var i :| 0 <= i < |after| && after[i] == c;
      DegradationIsPrecise(columns, unsupported, backend, i);
    }
  }
}
