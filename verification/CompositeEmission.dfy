/**
 Which composite definitions a generated file holds and in what order: the reachability worklist,
 the emission loop, and define-before-use.
 */
module CompositeEmission {
  import opened Wrappers
  import opened NeutralTypes
  import opened CompositeGraph
  import CompositeOrder
  import TieOrder

  /** What emission reads of an analyzed query: column and parameter types, and the composites. */
  datatype Query = Query(columnTypes: seq<string>, paramTypes: seq<string>, composites: seq<Composite>)

  /** `type_referenced_by_columns` for the `composite::` prefix. */
  predicate ReferencedByColumns(query: Query, sqlName: string) {
    || (exists t :: t in query.columnTypes && Innermost(t) == COMPOSITE_PREFIX + sqlName)
    || (exists t :: t in query.paramTypes && Innermost(t) == COMPOSITE_PREFIX + sqlName)
  }

  lemma ReferencedMeansNamed(query: Query, sqlName: string)
    ensures ReferencedByColumns(query, sqlName)
            <==> exists t :: (t in query.columnTypes || t in query.paramTypes) && Named(t) == Some(sqlName)
  {
    hide Named;
    forall t: string ensures Innermost(t) == COMPOSITE_PREFIX + sqlName <==> Named(t) == Some(sqlName) {
      NamedIff(t, sqlName);
    }
  }

  predicate IsRoot(query: Query, nestedRefs: set<string>, c: Composite) {
    c in query.composites && (c.sqlName in nestedRefs || ReferencedByColumns(query, c.sqlName))
  }

  /** Reached from a root by following field references. */
  ghost predicate Needed(query: Query, nestedRefs: set<string>, name: string) {
    exists c :: IsRoot(query, nestedRefs, c) && Reaches(query.composites, c.sqlName, name)
  }

  /** A set of names that holds the roots and every name a held composite's fields use. */
  ghost predicate ClosedOverRoots(query: Query, nestedRefs: set<string>, s: set<string>) {
    && (forall c :: IsRoot(query, nestedRefs, c) ==> c.sqlName in s)
    && (forall c, d :: c in query.composites && c.sqlName in s && d in Deps(c) ==> d in s)
  }

  /** The needed names are exactly the least closed set. */
  lemma NeededIsLeastClosed(query: Query, nestedRefs: set<string>, needed: set<string>)
    requires forall n :: n in needed <==> Needed(query, nestedRefs, n)
    ensures ClosedOverRoots(query, nestedRefs, needed)
    ensures forall s :: ClosedOverRoots(query, nestedRefs, s) ==> needed <= s
  {
    hide FieldDeps, ReferencedByColumns, Reaches, IsRoot, Needed;
    forall c | IsRoot(query, nestedRefs, c) ensures c.sqlName in needed {
      RootIsNeeded(query, nestedRefs, c);
    }
    forall c, d | c in query.composites && c.sqlName in needed && d in Deps(c) ensures d in needed {
      DepIsNeeded(query, nestedRefs, c, d);
    }
    forall s | ClosedOverRoots(query, nestedRefs, s) ensures needed <= s {
      forall n | n in needed ensures n in s {
        NeededInClosed(query, nestedRefs, s, n);
      }
    }
  }

  // ---------- the worklist ----------

  /** Everything the worklist can ever hold. */
  function Universe(cs: seq<Composite>): set<string> {
    if cs == [] then {} else Universe(cs[1..]) + {cs[0].sqlName} + Deps(cs[0])
  }

  lemma {:induction false} InUniverse(cs: seq<Composite>, c: Composite)
    requires c in cs
    ensures c.sqlName in Universe(cs) && Deps(c) <= Universe(cs)
  {
    if c != cs[0] {
      InUniverse(cs[1..], c);
    }
  }

  ghost predicate AllNeeded(query: Query, nestedRefs: set<string>, names: set<string>) {
    forall n :: n in names ==> Needed(query, nestedRefs, n)
  }

  /** `find(|c| c.sql_name == name)`. */
  function FindByName(cs: seq<Composite>, name: string): (r: Option<Composite>)
    ensures r.Some? ==> r.value in cs && r.value.sqlName == name
    ensures r.None? ==> forall c :: c in cs ==> c.sqlName != name
  {
    if cs == [] then None else if cs[0].sqlName == name then Some(cs[0]) else FindByName(cs[1..], name)
  }

  function ToSet(xs: seq<string>): set<string> {
    set x | x in xs
  }

  /** Processed names have their references processed or queued, except those of `but`. */
  ghost predicate Frontier(cs: seq<Composite>, reachable: set<string>, queued: set<string>, but: set<string>) {
    forall c :: c in cs && c.sqlName in reachable && c.sqlName !in but ==> Deps(c) <= reachable + queued
  }

  /** What every step of the worklist loop keeps. */
  ghost predicate WorkInv(query: Query, nestedRefs: set<string>, reachable: set<string>, queued: set<string>) {
    && AllNeeded(query, nestedRefs, reachable + queued)
    && reachable + queued <= Universe(query.composites)
    && (forall c :: IsRoot(query, nestedRefs, c) ==> c.sqlName in reachable + queued)
    && Frontier(query.composites, reachable, queued, {})
  }

  method ReachableCompositeNames(query: Query, nestedRefs: set<string>) returns (reachable: set<string>)
    requires UniqueNames(query.composites)
    ensures forall n :: n in reachable <==> Needed(query, nestedRefs, n)
  {
    hide FieldDeps, ReferencedByColumns, Reaches, Universe, WorkInv, UniqueNames, Needed, Frontier, AllNeeded, IsRoot;
    var cs := query.composites;
    reachable := {};
    var worklist := Roots(query, nestedRefs);
    WorkStarts(query, nestedRefs, ToSet(worklist));
    while worklist != []
      invariant WorkInv(query, nestedRefs, reachable, ToSet(worklist))
      decreases Universe(cs) - reachable, |worklist|
    {
      var name := worklist[|worklist| - 1];
      ghost var was := ToSet(worklist);
      worklist := worklist[..|worklist| - 1];
      assert was == ToSet(worklist) + {name};
      WorkInUniverse(query, nestedRefs, reachable, was);
      if name in reachable {
        WorkRequeued(query, nestedRefs, reachable, was, ToSet(worklist));
        continue;
      }
      WorkTaken(query, nestedRefs, reachable, was, name, ToSet(worklist));
      reachable := reachable + {name};
      var comp := FindByName(cs, name);
      if comp.Some? {
        worklist := PushDeps(query, nestedRefs, comp.value, reachable, worklist);
      } else {
        WorkWithoutFields(query, nestedRefs, reachable, ToSet(worklist), name);
      }
    }
    assert ToSet(worklist) == {};
    WorkDone(query, nestedRefs, reachable);
  }

  lemma WorkStarts(query: Query, nestedRefs: set<string>, queued: set<string>)
    requires AllNeeded(query, nestedRefs, queued) && queued <= Universe(query.composites)
    requires forall c :: IsRoot(query, nestedRefs, c) ==> c.sqlName in queued
    ensures WorkInv(query, nestedRefs, {}, queued)
  {
    hide FieldDeps, ReferencedByColumns, Reaches, Universe;
    assert {} + queued == queued;
  }

  lemma WorkInUniverse(query: Query, nestedRefs: set<string>, reachable: set<string>, queued: set<string>)
    requires WorkInv(query, nestedRefs, reachable, queued)
    ensures queued <= Universe(query.composites)
  {
    hide Frontier, IsRoot, Universe, AllNeeded;
  }

  lemma WorkRequeued(query: Query, nestedRefs: set<string>, reachable: set<string>, was: set<string>, queued: set<string>)
    requires WorkInv(query, nestedRefs, reachable, was) && reachable + was == reachable + queued
    ensures WorkInv(query, nestedRefs, reachable, queued)
  {
    hide FieldDeps, IsRoot, Universe, AllNeeded;
  }

  /** `but` marks the one processed name whose references are still to be queued. */
  ghost predicate WorkPending(query: Query, nestedRefs: set<string>, reachable: set<string>, queued: set<string>, but: string) {
    && AllNeeded(query, nestedRefs, reachable + queued)
    && reachable + queued <= Universe(query.composites)
    && (forall c :: IsRoot(query, nestedRefs, c) ==> c.sqlName in reachable + queued)
    && but in reachable
    && Frontier(query.composites, reachable, queued, {but})
  }

  lemma WorkTaken(query: Query, nestedRefs: set<string>, reachable: set<string>, was: set<string>, name: string, queued: set<string>)
    requires WorkInv(query, nestedRefs, reachable, was) && was == queued + {name}
    ensures WorkPending(query, nestedRefs, reachable + {name}, queued, name)
  {
    hide FieldDeps, IsRoot, Universe, AllNeeded;
    assert reachable + was == reachable + {name} + queued;
    FrontierMoves(query.composites, reachable, was, reachable + {name}, queued, {name});
  }

  lemma WorkWithoutFields(query: Query, nestedRefs: set<string>, reachable: set<string>, queued: set<string>, name: string)
    requires WorkPending(query, nestedRefs, reachable, queued, name)
    requires forall c :: c in query.composites ==> c.sqlName != name
    ensures WorkInv(query, nestedRefs, reachable, queued)
  {
    hide FieldDeps, IsRoot, Universe, AllNeeded;
  }

  lemma WorkDone(query: Query, nestedRefs: set<string>, reachable: set<string>)
    requires WorkInv(query, nestedRefs, reachable, {})
    ensures forall n :: n in reachable <==> Needed(query, nestedRefs, n)
  {
    hide FieldDeps, ReferencedByColumns, Reaches, Universe, Needed;
    assert reachable + {} == reachable;
    assert ClosedOverRoots(query, nestedRefs, reachable);
    forall n | Needed(query, nestedRefs, n) ensures n in reachable {
      NeededInClosed(query, nestedRefs, reachable, n);
    }
  }

  lemma FrontierMoves(cs: seq<Composite>, r: set<string>, q: set<string>, r': set<string>, q': set<string>, but: set<string>)
    requires Frontier(cs, r, q, {}) && r + q <= r' + q' && r' <= r + but
    ensures Frontier(cs, r', q', but)
  {
    hide FieldDeps;
  }

  lemma NeededInClosed(query: Query, nestedRefs: set<string>, s: set<string>, n: string)
    requires ClosedOverRoots(query, nestedRefs, s) && Needed(query, nestedRefs, n)
    ensures n in s
  {
    hide FieldDeps, ReferencedByColumns;
    var cs := query.composites;
    var root :| IsRoot(query, nestedRefs, root) && Reaches(cs, root.sqlName, n);
    var walk :| IsWalk(cs, walk, root.sqlName, n);
    ClosedUnderWalks(cs, s, walk, root.sqlName, n);
  }

  lemma RootIsNeeded(query: Query, nestedRefs: set<string>, c: Composite)
    requires IsRoot(query, nestedRefs, c)
    ensures Needed(query, nestedRefs, c.sqlName) && c.sqlName in Universe(query.composites)
  {
    hide FieldDeps, ReferencedByColumns, Reaches;
    ReachesItself(query.composites, c.sqlName);
    InUniverse(query.composites, c);
  }

  /** The initial worklist: the supplied composites that are roots, in order. */
  method Roots(query: Query, nestedRefs: set<string>) returns (worklist: seq<string>)
    ensures AllNeeded(query, nestedRefs, ToSet(worklist)) && ToSet(worklist) <= Universe(query.composites)
    ensures forall c :: IsRoot(query, nestedRefs, c) ==> c.sqlName in worklist
  {
    hide FieldDeps, ReferencedByColumns, Reaches, Universe;
    var cs := query.composites;
    worklist := [];
    for i := 0 to |cs|
      invariant AllNeeded(query, nestedRefs, ToSet(worklist)) && ToSet(worklist) <= Universe(cs)
      invariant forall c :: c in cs[..i] && IsRoot(query, nestedRefs, c) ==> c.sqlName in worklist
    {
      if cs[i].sqlName in nestedRefs || ReferencedByColumns(query, cs[i].sqlName) {
        RootIsNeeded(query, nestedRefs, cs[i]);
        worklist := worklist + [cs[i].sqlName];
      }
      assert cs[..i + 1] == cs[..i] + [cs[i]];
    }
    assert cs[..|cs|] == cs;
  }

  lemma DepIsNeeded(query: Query, nestedRefs: set<string>, c: Composite, d: string)
    requires Needed(query, nestedRefs, c.sqlName) && c in query.composites && d in Deps(c)
    ensures Needed(query, nestedRefs, d) && d in Universe(query.composites)
  {
    hide FieldDeps, ReferencedByColumns, Reaches;
    var cs := query.composites;
    var root :| IsRoot(query, nestedRefs, root) && Reaches(cs, root.sqlName, c.sqlName);
    ReachesByField(cs, c, d);
    ReachesTransitive(cs, root.sqlName, c.sqlName, d);
    InUniverse(cs, c);
  }

  /** Queues every composite the fields of `comp` name. */
  method PushDeps(query: Query, nestedRefs: set<string>, comp: Composite, reachable: set<string>, queued: seq<string>)
    returns (worklist: seq<string>)
    requires UniqueNames(query.composites) && comp in query.composites
    requires WorkPending(query, nestedRefs, reachable, ToSet(queued), comp.sqlName)
    ensures WorkInv(query, nestedRefs, reachable, ToSet(worklist))
  {
    hide FieldDeps, ReferencedByColumns, Reaches, Universe, Needed, Innermost, Frontier, IsRoot;
    worklist := queued;
    CompositeOrder.NoDeps();
    assert comp.fields[..0] == [];
    for i := 0 to |comp.fields|
      invariant ToSet(queued) <= ToSet(worklist)
      invariant AllNeeded(query, nestedRefs, reachable + ToSet(worklist))
      invariant reachable + ToSet(worklist) <= Universe(query.composites)
      invariant FieldDeps(comp.fields[..i]) <= ToSet(worklist)
    {
      var unwrapped := UnwrapContainers(comp.fields[i].neutralType);
      var nestedName := CompositeName(unwrapped);
      FieldDepsGrow(comp.fields, i);
      if nestedName.Some? {
        DepIsNeeded(query, nestedRefs, comp, nestedName.value);
        assert ToSet(worklist + [nestedName.value]) == ToSet(worklist) + {nestedName.value};
        worklist := worklist + [nestedName.value];
      }
    }
    assert comp.fields[..|comp.fields|] == comp.fields;
    FrontierDone(query.composites, comp, reachable, ToSet(queued), ToSet(worklist));
  }

  lemma FrontierDone(cs: seq<Composite>, comp: Composite, reachable: set<string>, queued: set<string>, worklist: set<string>)
    requires UniqueNames(cs) && comp in cs
    requires Frontier(cs, reachable, queued, {comp.sqlName}) && queued <= worklist && Deps(comp) <= worklist
    ensures Frontier(cs, reachable, worklist, {})
  {
    hide FieldDeps;
    forall c | c in cs && c.sqlName in reachable ensures Deps(c) <= reachable + worklist {
      if c.sqlName == comp.sqlName {
        NameDeterminesComposite(cs, c, comp);
      }
    }
  }

  // ---------- emission ----------

  /** One emitted definition; `nested` selects the JSON-decodable form. */
  datatype Emission = Emission(composite: Composite, nested: bool)

  function Defined(emissions: seq<Emission>): (r: seq<Composite>)
    ensures |r| == |emissions|
  {
    seq(|emissions|, i requires 0 <= i < |emissions| => emissions[i].composite)
  }

  /** `composites.filter(...)` in order. */
  function Kept(cs: seq<Composite>, names: set<string>): (r: seq<Composite>)
    ensures forall c :: c in r <==> c in cs && c.sqlName in names
  {
    if cs == [] then []
    else if cs[|cs| - 1].sqlName in names then Kept(cs[..|cs| - 1], names) + [cs[|cs| - 1]]
    else Kept(cs[..|cs| - 1], names)
  }

  /** Unrelated definitions stand as the first roots and the fields below them say. */
  ghost predicate TiesAsDecided(cs: seq<Composite>, listed: seq<Composite>)
    requires UniqueNames(cs) && Acyclic(cs)
  {
    forall c, d :: c in listed && d in listed && TieOrder.Unrelated(cs, c.sqlName, d.sqlName)
      ==> (Before(listed, c.sqlName, d.sqlName) <==> TieOrder.TieKept(cs, c.sqlName, d.sqlName))
  }

  method EmitComposites(query: Query, nestedRefs: set<string>, nestedCompositeNames: set<string>)
    returns (emissions: seq<Emission>)
    requires UniqueNames(query.composites)
    ensures forall c :: c in Defined(emissions) <==> c in query.composites && Needed(query, nestedRefs, c.sqlName)
    ensures UniqueNames(Defined(emissions))
    ensures DependenciesFirst(query.composites, Defined(emissions))
    ensures InOrderOf(CompositeOrder.Order(query.composites), Defined(emissions))
    ensures Acyclic(query.composites) ==> TiesAsDecided(query.composites, Defined(emissions))
    ensures AlreadyOrdered(query.composites) ==> InOrderOf(query.composites, Defined(emissions))
    ensures forall e :: e in emissions ==> e.nested == (e.composite.sqlName in nestedRefs + nestedCompositeNames)
  {
    hide FieldDeps, Reaches, Needed, UniqueNames, DependenciesFirst, KeepsInputOrder, AlreadyOrdered, InOrderOf, Acyclic,
         TiesAsDecided, CompositeOrder.Order;
    var reachable := ReachableCompositeNames(query, nestedRefs);
    var ordered := CompositeOrder.CompositesInDependencyOrder(query.composites);
    UniqueUpToOrder(query.composites, ordered);
    emissions := [];
    for i := 0 to |ordered|
      invariant Defined(emissions) == Kept(ordered[..i], reachable)
      invariant forall e :: e in emissions ==> e.nested == (e.composite.sqlName in nestedRefs + nestedCompositeNames)
    {
      var comp := ordered[i];
      assert ordered[..i + 1][..i] == ordered[..i];
      if comp.sqlName !in reachable {
        continue;
      }
      var fromNested := comp.sqlName in nestedRefs || comp.sqlName in nestedCompositeNames;
      emissions := emissions + [Emission(comp, fromNested)];
      assert Defined(emissions) == Kept(ordered[..i], reachable) + [comp];
    }
    assert ordered[..|ordered|] == ordered;
    KeptOrder(ordered, reachable);
    NeededIsLeastClosed(query, nestedRefs, reachable);
    KeptDependenciesFirst(query, ordered, reachable);
    KeptInOrder(ordered, reachable);
    if Acyclic(query.composites) {
      OrderDecidesTies(query.composites, Defined(emissions));
    }
  }

  /** Filtering keeps the order. */
  lemma {:induction false} KeptInOrder(ordered: seq<Composite>, names: set<string>)
    ensures InOrderOf(ordered, Kept(ordered, names))
    decreases |ordered|
  {
    hide InOrderOf;
    if ordered == [] {
      NothingOutOfOrder();
    } else {
      var n := |ordered| - 1;
      KeptInOrder(ordered[..n], names);
      OneMoreInOrder(ordered, Kept(ordered[..n], names));
    }
  }

  lemma NothingOutOfOrder()
    ensures InOrderOf([], [])
  {
  }

  lemma OneMoreInOrder(ordered: seq<Composite>, listed: seq<Composite>)
    requires ordered != [] && InOrderOf(ordered[..|ordered| - 1], listed)
    requires forall c :: c in listed ==> c in ordered[..|ordered| - 1]
    ensures InOrderOf(ordered, listed) && InOrderOf(ordered, listed + [ordered[|ordered| - 1]])
  {
    hide Before;
    var (init, last) := (ordered[..|ordered| - 1], ordered[|ordered| - 1]);
    forall p, q | 0 <= p < q < |listed| ensures Before(ordered, listed[p].sqlName, listed[q].sqlName) {
      BeforeStays(init, ordered, listed[p].sqlName, listed[q].sqlName);
    }
    forall p | 0 <= p < |listed| ensures Before(ordered, listed[p].sqlName, last.sqlName) {
      assert listed[p] in listed;
      LastIsAfter(ordered, listed[p]);
    }
  }

  lemma LastIsAfter(ordered: seq<Composite>, c: Composite)
    requires ordered != [] && c in ordered[..|ordered| - 1]
    ensures Before(ordered, c.sqlName, ordered[|ordered| - 1].sqlName)
  {
    var p :| 0 <= p < |ordered| - 1 && ordered[p] == c;
  }

  /** A list in the order of the walk inherits how the walk breaks ties. */
  lemma OrderDecidesTies(cs: seq<Composite>, listed: seq<Composite>)
    requires UniqueNames(cs) && Acyclic(cs) && (forall c :: c in listed ==> c in cs) && UniqueNames(listed)
    requires InOrderOf(CompositeOrder.Order(cs), listed)
    ensures TiesAsDecided(cs, listed)
  {
    hide FieldDeps, Reaches, CompositeOrder.Order, Acyclic, Before, TieOrder.Unrelated, TieOrder.TieKept;
    var ordered := CompositeOrder.Order(cs);
    TieOrder.OrderIsUnique(cs);
    forall c, d | c in listed && d in listed && TieOrder.Unrelated(cs, c.sqlName, d.sqlName)
      ensures Before(listed, c.sqlName, d.sqlName) <==> TieOrder.TieKept(cs, c.sqlName, d.sqlName)
    {
      var i :| 0 <= i < |cs| && cs[i] == c;
      var j :| 0 <= j < |cs| && cs[j] == d;
      TieOrder.TieDecided(cs, i, j);
      TieOrder.UnrelatedDiffer(cs, c.sqlName, d.sqlName);
      SameOrder(ordered, listed, c, d);
    }
  }

  lemma SameOrder(ordered: seq<Composite>, listed: seq<Composite>, c: Composite, d: Composite)
    requires UniqueNames(ordered) && UniqueNames(listed) && InOrderOf(ordered, listed)
    requires c in listed && d in listed && c.sqlName != d.sqlName
    ensures Before(listed, c.sqlName, d.sqlName) <==> Before(ordered, c.sqlName, d.sqlName)
  {
    var p :| 0 <= p < |listed| && listed[p] == c;
    var q :| 0 <= q < |listed| && listed[q] == d;
    if p < q {
      assert Before(listed, c.sqlName, d.sqlName);
    } else {
      assert Before(listed, d.sqlName, c.sqlName);
      BeforeIsOneWay(listed, d.sqlName, c.sqlName);
      BeforeIsOneWay(ordered, d.sqlName, c.sqlName);
    }
  }

  lemma UniqueUpToOrder(cs: seq<Composite>, ordered: seq<Composite>)
    requires multiset(cs) == multiset(ordered) && UniqueNames(cs)
    ensures UniqueNames(ordered)
    ensures forall c :: c in cs <==> c in ordered
  {
    forall c ensures c in cs <==> c in ordered {
      assert c in multiset(cs) <==> c in multiset(ordered);
    }
    forall i, j | 0 <= i < j < |ordered| ensures ordered[i].sqlName != ordered[j].sqlName {
      assert ordered[i] in ordered && ordered[j] in ordered;
      if ordered[i].sqlName == ordered[j].sqlName {
        NameDeterminesComposite(cs, ordered[i], ordered[j]);
        OccursOnce(cs, ordered[i]);
        TwiceInMultiset(ordered, i, j);
        assert false;
      }
    }
  }

  lemma TwiceInMultiset(xs: seq<Composite>, i: nat, j: nat)
    requires i < j < |xs| && xs[i] == xs[j]
    ensures multiset(xs)[xs[i]] >= 2
  {
    assert xs == xs[..i] + [xs[i]] + xs[i + 1..j] + [xs[j]] + xs[j + 1..];
  }

  /** What was kept up to position `i` is what was kept of the list up to where `i` came from. */
  lemma {:induction false} KeptAt(ordered: seq<Composite>, names: set<string>, i: nat) returns (m: nat)
    requires i < |Kept(ordered, names)|
    ensures m < |ordered| && ordered[m] == Kept(ordered, names)[i]
    ensures Kept(ordered[..m], names) == Kept(ordered, names)[..i]
    decreases |ordered|
  {
    var n := |ordered| - 1;
    var init := Kept(ordered[..n], names);
    if i == |init| {
      m := n;
    } else {
      m := KeptAt(ordered[..n], names, i);
      assert ordered[..n][..m] == ordered[..m];
    }
  }

  lemma {:induction false} KeptOrder(ordered: seq<Composite>, names: set<string>)
    requires UniqueNames(ordered)
    ensures UniqueNames(Kept(ordered, names))
    decreases |ordered|
  {
    if ordered != [] {
      var n := |ordered| - 1;
      KeptOrder(ordered[..n], names);
      forall c | c in Kept(ordered[..n], names) ensures c.sqlName != ordered[n].sqlName {
        var j :| 0 <= j < n && ordered[j] == c;
      }
    }
  }

  /** Dropping names outside a closed set leaves every remaining reference defined earlier. */
  lemma KeptDependenciesFirst(query: Query, ordered: seq<Composite>, names: set<string>)
    requires DependenciesFirst(query.composites, ordered)
    requires forall c :: c in ordered ==> c in query.composites
    requires forall c, d :: c in query.composites && c.sqlName in names && d in Deps(c) ==> d in names
    ensures DependenciesFirst(query.composites, Kept(ordered, names))
  {
    hide FieldDeps, Reaches;
    var kept := Kept(ordered, names);
    forall i, d | 0 <= i < |kept| && d in Deps(kept[i]) && d in Names(query.composites)
      ensures Reaches(query.composites, d, kept[i].sqlName) || DefinedBefore(kept, i, d)
    {
      assert kept[i] in kept;
      var m := KeptAt(ordered, names, i);
      if DefinedBefore(ordered, m, d) {
        var j :| 0 <= j < m && ordered[j].sqlName == d;
        assert ordered[..m][j] == ordered[j] && d in names;
        assert ordered[j] in kept[..i];
        var l :| 0 <= l < i && kept[..i][l] == ordered[j];
        assert kept[l].sqlName == d;
      }
    }
  }

  /** Every supplied composite a definition names stands strictly before it. */
  ghost predicate DefinesBeforeUse(cs: seq<Composite>, ordered: seq<Composite>) {
    forall i, d :: 0 <= i < |ordered| && d in Deps(ordered[i]) && d in Names(cs) ==> DefinedBefore(ordered, i, d)
  }

  /** No listed composite is on a reference cycle. */
  ghost predicate NoneOnCycle(cs: seq<Composite>, ordered: seq<Composite>) {
    forall c, d :: c in ordered && d in Deps(c) && d in Names(cs) ==> !Reaches(cs, d, c.sqlName)
  }

  /**
   The emitted file defines everything before use exactly when no emitted composite is on a
   reference cycle; when one is, no order of the definitions would do.
   */
  lemma DefinesBeforeUseIff(cs: seq<Composite>, emitted: seq<Composite>)
    requires UniqueNames(cs) && UniqueNames(emitted) && (forall c :: c in emitted ==> c in cs)
    ensures DefinesBeforeUse(cs, emitted) ==> NoneOnCycle(cs, emitted)
    ensures DependenciesFirst(cs, emitted) ==> (DefinesBeforeUse(cs, emitted) <==> NoneOnCycle(cs, emitted))
  {
    hide FieldDeps;
    if DefinesBeforeUse(cs, emitted) {
      forall c, d | c in emitted && d in Deps(c) && d in Names(cs) ensures !Reaches(cs, d, c.sqlName) {
        var i :| 0 <= i < |emitted| && emitted[i] == c;
        if Reaches(cs, d, c.sqlName) {
          var walk :| IsWalk(cs, walk, d, c.sqlName);
          assert BackwardOrSelf(cs, emitted);
          WalksGoBack(cs, emitted, i, walk, d, c.sqlName);
          assert false;
        }
      }
    }
    if DependenciesFirst(cs, emitted) && NoneOnCycle(cs, emitted) {
      assert forall i :: 0 <= i < |emitted| ==> emitted[i] in emitted;
    }
  }

  /**
   Define before use: on an acyclic catalog, whatever supplied composite a field of an emitted
   definition names, through any depth of wrappers, is emitted too and earlier.
   */
  lemma DefineBeforeUse(query: Query, nestedRefs: set<string>, emitted: seq<Composite>, i: nat, f: Field, core: string, t: Wrapped)
    requires Acyclic(query.composites)
    requires forall c :: c in emitted <==> c in query.composites && Needed(query, nestedRefs, c.sqlName)
    requires DependenciesFirst(query.composites, emitted)
    requires i < |emitted| && f in emitted[i].fields
    requires Proper(t) && f.neutralType == Print(t) && Core(t) == "composite::" + core
    ensures core in Names(query.composites) ==> DefinedBefore(emitted, i, core)
  {
    hide FieldDeps, Reaches, Needed;
    InnermostOfPrinted(t);
    assert Named(f.neutralType) == Some(core);
    FieldDepsAre(emitted[i].fields, core);
    assert emitted[i] in emitted;
    assert core in Deps(emitted[i]);
  }
}
