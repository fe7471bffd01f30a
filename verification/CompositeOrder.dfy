/** `composites_in_dependency_order`: the post-order depth-first walk. */
module CompositeOrder {
  import opened Wrappers
  import opened NeutralTypes
  import opened CompositeGraph

  /** The name index: collecting pairs into a map, later entries winning. */
  function ByName(cs: seq<Composite>): map<string, Composite> {
    if cs == [] then map[]
    else ByName(cs[..|cs| - 1])[cs[|cs| - 1].sqlName := cs[|cs| - 1]]
  }

  /** With unique names the index finds exactly the supplied composites. */
  lemma {:induction false} ByNameFinds(cs: seq<Composite>, name: string)
    requires UniqueNames(cs)
    ensures name in ByName(cs) <==> name in Names(cs)
    ensures name in ByName(cs) ==> ByName(cs)[name] in cs && ByName(cs)[name].sqlName == name
    decreases |cs|
  {
    if cs != [] {
      var init, last := cs[..|cs| - 1], cs[|cs| - 1];
      assert forall c :: c in cs <==> c in init || c == last;
      ByNameFinds(init, name);
    }
  }

  // ---------- the order as a function ----------

  /** Names still to be met. */
  function Unmet(cs: seq<Composite>, ordered: seq<Composite>, path: set<string>): set<string> {
    Names(cs) - Names(ordered) - path
  }

  lemma NamesOfPrefix(xs: seq<Composite>, ys: seq<Composite>)
    requires xs <= ys
    ensures Names(xs) <= Names(ys)
  {
    forall c | c in xs ensures c in ys {
      var j :| 0 <= j < |xs| && xs[j] == c;
      assert ys[j] == c;
    }
  }

  /** What is placed once `comp` has been visited: post-order, fields in their order. */
  function Visited(cs: seq<Composite>, comp: Composite, ordered: seq<Composite>, path: set<string>): (r: seq<Composite>)
    requires UniqueNames(cs) && comp in cs
    ensures ordered <= r
    decreases Unmet(cs, ordered, path), 0
  {
    if comp.sqlName in Names(ordered) || comp.sqlName in path then ordered
    else
      assert comp.sqlName in Unmet(cs, ordered, path);
      VisitedFields(cs, comp.fields, ordered, path + {comp.sqlName}) + [comp]
  }

  function VisitedFields(cs: seq<Composite>, fields: seq<Field>, ordered: seq<Composite>, path: set<string>): (r: seq<Composite>)
    requires UniqueNames(cs)
    ensures ordered <= r
    decreases Unmet(cs, ordered, path), |fields|
  {
    if fields == [] then ordered
    else
      var r := VisitedFields(cs, fields[..|fields| - 1], ordered, path);
      var dep := Named(fields[|fields| - 1].neutralType);
      if dep.Some? && dep.value in ByName(cs) then
        ByNameFinds(cs, dep.value);
        NamesOfPrefix(ordered, r);
        Visited(cs, ByName(cs)[dep.value], r, path)
      else r
  }

  /** What is placed once the first `n` inputs have been visited. */
  function VisitedRoots(cs: seq<Composite>, n: nat): seq<Composite>
    requires UniqueNames(cs) && n <= |cs|
  {
    if n == 0 then [] else Visited(cs, cs[n - 1], VisitedRoots(cs, n - 1), {})
  }

  function Order(cs: seq<Composite>): seq<Composite>
    requires UniqueNames(cs)
  {
    VisitedRoots(cs, |cs|)
  }

  // ---------- what holds between any two steps of the walk ----------

  /** The walk's state: what is placed, the names placed (black) and the current path (grey). */
  ghost predicate Inv(cs: seq<Composite>, ordered: seq<Composite>, emitted: set<string>, visiting: set<string>) {
    && UniqueNames(ordered) && emitted == Names(ordered)
    && (forall c :: c in ordered ==> c in cs)
    && emitted !! visiting && visiting <= Names(cs)
    && DependenciesFirst(cs, ordered)
    && (forall c :: c in ordered ==> Deps(c) * Names(cs) <= emitted + visiting)
  }

  lemma Enter(cs: seq<Composite>, ordered: seq<Composite>, emitted: set<string>, visiting: set<string>, comp: Composite)
    requires Inv(cs, ordered, emitted, visiting) && comp in cs && comp.sqlName !in emitted + visiting
    ensures Inv(cs, ordered, emitted, visiting + {comp.sqlName})
    ensures comp.sqlName in Names(cs)
  {
  }

  /** Leaving `comp`: every dependency is placed, or on the path and hence part of a cycle. */
  lemma Place(cs: seq<Composite>, ordered: seq<Composite>, emitted: set<string>, visiting: set<string>, comp: Composite)
    requires Inv(cs, ordered, emitted, visiting + {comp.sqlName})
    requires comp in cs && comp.sqlName !in visiting
    requires AllReach(cs, visiting, comp.sqlName)
    requires Deps(comp) * Names(cs) <= emitted + (visiting + {comp.sqlName})
    ensures Inv(cs, ordered + [comp], emitted + {comp.sqlName}, visiting)
    ensures Reaches(cs, comp.sqlName, comp.sqlName)
  {
    hide FieldDeps, Reaches;
    ReachesItself(cs, comp.sqlName);
    var now := ordered + [comp];
    assert forall c :: c in now <==> c in ordered || c == comp;
    PlacedNames(ordered, comp);
    forall i, d | 0 <= i < |now| && d in Deps(now[i]) && d in Names(cs)
      ensures Reaches(cs, d, now[i].sqlName) || DefinedBefore(now, i, d)
    {
      if i < |ordered| {
        assert ordered[i] == now[i];
        if DefinedBefore(ordered, i, d) {
          var j :| 0 <= j < i && ordered[j].sqlName == d;
          assert now[j].sqlName == d;
        }
      } else if d in emitted {
        var c :| c in ordered && c.sqlName == d;
        var j :| 0 <= j < |ordered| && ordered[j] == c;
        assert now[j].sqlName == d;
      }
    }
  }

  lemma PlacedNames(ordered: seq<Composite>, comp: Composite)
    requires UniqueNames(ordered) && comp.sqlName !in Names(ordered)
    ensures UniqueNames(ordered + [comp])
    ensures Names(ordered + [comp]) == Names(ordered) + {comp.sqlName}
  {
    var now := ordered + [comp];
    assert forall c :: c in now <==> c in ordered || c == comp;
    forall i | 0 <= i < |ordered| ensures ordered[i].sqlName != comp.sqlName {
      assert ordered[i] in ordered;
    }
  }

  class DependencyWalk {
    const composites: seq<Composite>
    const byName: map<string, Composite>
    var ordered: seq<Composite>
    var emitted: set<string>
    var visiting: set<string>

    ghost predicate Valid()
      reads this
    {
      && UniqueNames(composites) && byName == ByName(composites)
      && Inv(composites, ordered, emitted, visiting)
    }

    constructor (composites: seq<Composite>)
      requires UniqueNames(composites)
      ensures Valid() && this.composites == composites
      ensures ordered == [] && emitted == {} && visiting == {}
    {
      this.composites := composites;
      this.byName := ByName(composites);
      ordered, emitted, visiting := [], {}, {};
    }

    /**
     Emits `comp` after everything it needs. The names in `visiting` are the ones on the path from
     the root, so each reaches `comp`; a dependency found among them therefore closes a cycle.
     */
    method Visit(comp: Composite)
      requires Valid() && comp in composites
      requires AllReach(composites, visiting, comp.sqlName)
      modifies this`ordered, this`emitted, this`visiting
      ensures Valid() && visiting == old(visiting)
      ensures ordered == Visited(composites, comp, old(ordered), old(visiting))
      ensures old(ordered) <= ordered && old(emitted) <= emitted
      ensures comp.sqlName in emitted + visiting
      ensures AllReached(composites, comp.sqlName, ordered, |old(ordered)|)
      decreases Names(composites) - (emitted + visiting)
    {
      hide Inv, FieldDeps, Names, Reaches, UniqueNames, ByName, Innermost, Peel, AllReach, AllReached, Visited, VisitedFields;
      var name := comp.sqlName;
      NothingAdded(composites, name, ordered);
      EmittedNames(composites, ordered, emitted, visiting);
      VisitedOpens(composites, comp, ordered, visiting);
      if name in emitted || name in visiting {
        return;
      }
      Enter(composites, ordered, emitted, visiting, comp);
      visiting := visiting + {name};
      NoDeps();
      assert comp.fields[..0] == [];
      for i := 0 to |comp.fields|
        invariant Valid() && visiting == old(visiting) + {name}
        invariant old(ordered) <= ordered && old(emitted) <= emitted
        invariant AllReached(composites, name, ordered, |old(ordered)|)
        invariant FieldDeps(comp.fields[..i]) * Names(composites) <= emitted + visiting
        invariant ordered == VisitedFields(composites, comp.fields[..i], old(ordered), visiting)
      {
        var unwrapped := UnwrapContainers(comp.fields[i].neutralType);
        var dep := CompositeName(unwrapped);
        FieldDepsGrow(comp.fields, i);
        VisitedFieldsGrow(composites, comp.fields, i, old(ordered), visiting);
        assert OneDep(comp.fields[i]) == if dep.Some? then {dep.value} else {};
        if dep.Some? {
          ByNameFinds(composites, dep.value);
          if dep.value in byName {
            var d := byName[dep.value];
            ReachesByField(composites, comp, d.sqlName);
            PathReaches(composites, old(visiting), name, d.sqlName);
            label before:
            Visit(d);
            AllReachedThrough(composites, name, d.sqlName, old@before(ordered), ordered, |old(ordered)|);
          }
        }
        assert FieldDeps(comp.fields[..i]) * Names(composites) <= emitted + visiting;
        assert OneDep(comp.fields[i]) * Names(composites) <= emitted + visiting;
        assert FieldDeps(comp.fields[..i + 1]) == FieldDeps(comp.fields[..i]) + OneDep(comp.fields[i]);
      }
      assert comp.fields[..|comp.fields|] == comp.fields;
      visiting := visiting - {name};
      assert visiting == old(visiting);
      Place(composites, ordered, emitted, visiting, comp);
      AllReachedPush(composites, name, ordered, |old(ordered)|, comp);
      emitted := emitted + {name};
      ordered := ordered + [comp];
    }
  }

  lemma EmittedNames(cs: seq<Composite>, ordered: seq<Composite>, emitted: set<string>, visiting: set<string>)
    requires Inv(cs, ordered, emitted, visiting)
    ensures emitted == Names(ordered)
  {
  }

  /** A visit does nothing, or ends by placing its own composite after what its fields place. */
  lemma VisitedOpens(cs: seq<Composite>, comp: Composite, ordered: seq<Composite>, path: set<string>)
    requires UniqueNames(cs) && comp in cs
    ensures VisitedFields(cs, [], ordered, path + {comp.sqlName}) == ordered
    ensures Visited(cs, comp, ordered, path)
         == if comp.sqlName in Names(ordered) || comp.sqlName in path then ordered
            else VisitedFields(cs, comp.fields, ordered, path + {comp.sqlName}) + [comp]
  {
  }

  lemma VisitedFieldsGrow(cs: seq<Composite>, fields: seq<Field>, i: nat, ordered: seq<Composite>, path: set<string>)
    requires UniqueNames(cs) && i < |fields|
    ensures var (r, dep) := (VisitedFields(cs, fields[..i], ordered, path), Named(fields[i].neutralType));
            && (dep.Some? && dep.value in ByName(cs) ==>
                  ByName(cs)[dep.value] in cs
                  && VisitedFields(cs, fields[..i + 1], ordered, path) == Visited(cs, ByName(cs)[dep.value], r, path))
            && (dep.None? || dep.value !in ByName(cs) ==> VisitedFields(cs, fields[..i + 1], ordered, path) == r)
  {
    hide Named, ByName, Names;
    assert fields[..i + 1][..i] == fields[..i];
    if Named(fields[i].neutralType).Some? {
      ByNameFinds(cs, Named(fields[i].neutralType).value);
    }
  }

  lemma NoDeps()
    ensures FieldDeps([]) == {}
  {
  }

  // ---------- when the order is unchanged ----------

  /** The fields place nothing exactly when all they name is placed already or on the path. */
  lemma {:induction false} FieldsPlaceNothing(cs: seq<Composite>, fields: seq<Field>, ordered: seq<Composite>, path: set<string>)
    requires UniqueNames(cs)
    ensures VisitedFields(cs, fields, ordered, path) == ordered
            <==> FieldDeps(fields) * Names(cs) <= Names(ordered) + path
    decreases |fields|
  {
    hide ByName, Named, Names;
    if fields != [] {
      var n := |fields| - 1;
      assert fields[..n + 1] == fields;
      FieldsPlaceNothing(cs, fields[..n], ordered, path);
      FieldDepsGrow(fields, n);
      VisitedFieldsGrow(cs, fields, n, ordered, path);
      var r, dep := VisitedFields(cs, fields[..n], ordered, path), Named(fields[n].neutralType);
      var all := VisitedFields(cs, fields, ordered, path);
      if dep.Some? {
        ByNameFinds(cs, dep.value);
        if dep.value in ByName(cs) {
          VisitedOpens(cs, ByName(cs)[dep.value], r, path);
          assert r == ordered ==> (all == ordered <==> dep.value in Names(ordered) + path);
        }
      }
      assert OneDep(fields[n]) == if dep.Some? then {dep.value} else {};
      assert r <= all;
    }
  }

  /** A fresh visit places its composite alone exactly when all it names is placed or on the path. */
  lemma PlacedAlone(cs: seq<Composite>, comp: Composite, ordered: seq<Composite>, path: set<string>)
    requires UniqueNames(cs) && comp in cs && comp.sqlName !in Names(ordered) + path
    ensures Visited(cs, comp, ordered, path) == ordered + [comp]
            <==> Deps(comp) * Names(cs) <= Names(ordered) + path + {comp.sqlName}
  {
    hide FieldDeps, Names;
    VisitedOpens(cs, comp, ordered, path);
    FieldsPlaceNothing(cs, comp.fields, ordered, path + {comp.sqlName});
    assert Names(ordered) + path + {comp.sqlName} == Names(ordered) + (path + {comp.sqlName});
  }

  lemma {:induction false} RootsGrow(cs: seq<Composite>, m: nat, n: nat)
    requires UniqueNames(cs) && m <= n <= |cs|
    ensures VisitedRoots(cs, m) <= VisitedRoots(cs, n)
    decreases n - m
  {
    if m < n {
      RootsGrow(cs, m, n - 1);
    }
  }

  lemma {:induction false} OrderedStays(cs: seq<Composite>, n: nat)
    requires UniqueNames(cs) && AlreadyOrdered(cs) && n <= |cs|
    ensures VisitedRoots(cs, n) == cs[..n]
    decreases n
  {
    hide FieldDeps, Names, Visited, AlreadyOrdered;
    if n > 0 {
      OrderedStays(cs, n - 1);
      ReadyWhenOrdered(cs, n - 1);
      PlacedAlone(cs, cs[n - 1], cs[..n - 1], {});
    }
  }

  lemma {:induction false} UnchangedPrefix(cs: seq<Composite>, n: nat)
    requires UniqueNames(cs) && n <= |cs| && Order(cs) == cs
    ensures VisitedRoots(cs, n) == cs[..n]
    decreases n
  {
    hide FieldDeps, Visited, VisitedFields;
    if n > 0 {
      UnchangedPrefix(cs, n - 1);
      RootsGrow(cs, n, |cs|);
      var was, now := cs[..n - 1], VisitedRoots(cs, n);
      VisitedOpens(cs, cs[n - 1], was, {});
      NotAmongEarlier(cs, n - 1);
      assert now[|now| - 1] == cs[n - 1] && now == cs[..|now|];
      assert |now| == n;
    }
  }

  lemma NotAmongEarlier(cs: seq<Composite>, n: nat)
    requires UniqueNames(cs) && n < |cs|
    ensures cs[n].sqlName !in Names(cs[..n])
    ensures cs[..n + 1] == cs[..n] + [cs[n]]
  {
    forall c | c in cs[..n] ensures c.sqlName != cs[n].sqlName {
      var j :| 0 <= j < n && cs[j] == c;
    }
  }

  /** The order of the input is kept exactly when every composite names only itself and earlier ones. */
  lemma OrderUnchangedIff(cs: seq<Composite>)
    requires UniqueNames(cs)
    ensures Order(cs) == cs <==> AlreadyOrdered(cs)
  {
    hide FieldDeps, Names, Visited, DefinedBefore, VisitedRoots;
    assert cs[..|cs|] == cs;
    if AlreadyOrdered(cs) {
      OrderedStays(cs, |cs|);
    }
    if Order(cs) == cs {
      forall i, d | 0 <= i < |cs| && d in Deps(cs[i]) && d in Names(cs) && d != cs[i].sqlName ensures DefinedBefore(cs, i, d) {
        UnchangedPrefix(cs, i);
        UnchangedPrefix(cs, i + 1);
        NotAmongEarlier(cs, i);
        NextRoot(cs, i);
        PlacedAlone(cs, cs[i], cs[..i], {});
        NamedIsDefined(cs, i, d);
      }
    }
  }

  lemma NextRoot(cs: seq<Composite>, n: nat)
    requires UniqueNames(cs) && n < |cs|
    ensures VisitedRoots(cs, n + 1) == Visited(cs, cs[n], VisitedRoots(cs, n), {})
  {
  }

  lemma NamedIsDefined(cs: seq<Composite>, i: nat, d: string)
    requires i <= |cs| && d in Names(cs[..i])
    ensures DefinedBefore(cs, i, d)
  {
    var c :| c in cs[..i] && c.sqlName == d;
    var j :| 0 <= j < i && cs[..i][j] == c;
    assert cs[j].sqlName == d;
  }

  // ---------- the whole order ----------

  method CompositesInDependencyOrder(composites: seq<Composite>) returns (ordered: seq<Composite>)
    requires UniqueNames(composites)
    ensures ordered == Order(composites)
    ensures multiset(ordered) == multiset(composites)
    ensures DependenciesFirst(composites, ordered)
    ensures ByFirstRoot(composites, ordered) && RootsLast(composites, ordered)
    ensures KeepsInputOrder(composites, ordered)
    ensures ordered == composites <==> AlreadyOrdered(composites)
  {
    hide FieldDeps, Reaches, ByFirstRoot, RootsLast, KeepsInputOrder, DependenciesFirst, AlreadyOrdered, Visited, Inv, Names, UniqueNames, Progress, ReachedFromPrefix;
    var walk := new DependencyWalk(composites);
    NothingPlaced(composites);
    for n := 0 to |composites|
      invariant fresh(walk) && walk.composites == composites
      invariant walk.Valid() && walk.visiting == {}
      invariant walk.ordered == VisitedRoots(composites, n)
      invariant Progress(composites, n, walk.ordered)
    {
      ghost var was := walk.ordered;
      NoPath(composites, composites[n].sqlName);
      walk.Visit(composites[n]);
      VisitedOpens(composites, composites[n], was, {});
      EmittedNames(composites, walk.ordered, walk.emitted, {});
      SomethingPlaced(walk.ordered, composites[n].sqlName);
      RootStep(composites, n, was, walk.ordered);
    }
    ordered := walk.ordered;
    OrderedFacts(composites, ordered, walk.emitted);
    SameMembers(composites, ordered);
    UniqueListsAreRearrangements(ordered, composites);
    OrderUnchangedIff(composites);
  }

  /** After `n` roots: exactly what they reach is placed, by first root and each such root last. */
  ghost predicate Progress(cs: seq<Composite>, n: nat, ordered: seq<Composite>)
    requires n <= |cs|
  {
    && (forall name :: name in Names(cs) ==> (name in Names(ordered) <==> ReachedFromPrefix(cs, n, name)))
    && ByFirstRoot(cs, ordered) && RootsLast(cs, ordered)
  }

  lemma NoPath(cs: seq<Composite>, a: string)
    ensures AllReach(cs, {}, a)
  {
  }

  lemma SomethingPlaced(ordered: seq<Composite>, name: string)
    requires name in Names(ordered)
    ensures ordered != []
  {
  }

  lemma OrderedFacts(cs: seq<Composite>, ordered: seq<Composite>, emitted: set<string>)
    requires Inv(cs, ordered, emitted, {}) && Progress(cs, |cs|, ordered)
    ensures UniqueNames(ordered) && (forall c :: c in ordered ==> c in cs)
    ensures DependenciesFirst(cs, ordered) && ByFirstRoot(cs, ordered) && RootsLast(cs, ordered)
    ensures KeepsInputOrder(cs, ordered)
  {
    hide RootsLast, DependenciesFirst, FieldDeps, Reaches;
    forall i, p, q | 0 <= i < |cs| && 0 <= p <= q < |ordered| && ordered[q] == cs[i]
      ensures ReachedFromPrefix(cs, i + 1, ordered[p].sqlName)
    {
      ReachesItself(cs, cs[i].sqlName);
      assert ReachedFromPrefix(cs, i + 1, ordered[q].sqlName);
    }
  }

  lemma NothingPlaced(cs: seq<Composite>)
    ensures Progress(cs, 0, [])
  {
  }

  lemma SameMembers(cs: seq<Composite>, ordered: seq<Composite>)
    requires UniqueNames(cs) && Progress(cs, |cs|, ordered)
    requires forall c :: c in ordered ==> c in cs
    ensures forall c :: c in ordered <==> c in cs
  {
    hide Reaches, ByFirstRoot, RootsLast;
    forall c | c in cs ensures c in ordered {
      var k :| 0 <= k < |cs| && cs[k] == c;
      ReachesItself(cs, c.sqlName);
      assert ReachedFromPrefix(cs, |cs|, c.sqlName);
      var e :| e in ordered && e.sqlName == c.sqlName;
      NameDeterminesComposite(cs, c, e);
    }
  }

  lemma ReadyWhenOrdered(cs: seq<Composite>, n: nat)
    requires UniqueNames(cs) && AlreadyOrdered(cs) && n < |cs|
    ensures Deps(cs[n]) * Names(cs) <= Names(cs[..n]) + {} + {cs[n].sqlName}
    ensures cs[n].sqlName !in Names(cs[..n])
    ensures cs[..n + 1] == cs[..n] + [cs[n]]
  {
    hide FieldDeps;
    NotAmongEarlier(cs, n);
    forall d | d in Deps(cs[n]) * Names(cs) && d != cs[n].sqlName ensures d in Names(cs[..n]) {
      assert DefinedBefore(cs, n, d);
      var j :| 0 <= j < n && cs[j].sqlName == d;
      assert cs[..n][j] == cs[j];
    }
  }

  lemma PrefixGrows(cs: seq<Composite>, n: nat, m: nat, name: string)
    requires n <= m <= |cs| && ReachedFromPrefix(cs, n, name)
    ensures ReachedFromPrefix(cs, m, name)
  {
    hide Reaches;
  }

  /** Visiting the n-th input adds exactly what it is the first to reach, itself last. */
  lemma RootStep(cs: seq<Composite>, n: nat, was: seq<Composite>, now: seq<Composite>)
    requires UniqueNames(cs) && n < |cs|
    requires was <= now && now != [] && Inv(cs, now, Names(now), {}) && cs[n].sqlName in Names(now)
    requires AllReached(cs, cs[n].sqlName, now, |was|)
    requires cs[n].sqlName !in Names(was) ==> now[|now| - 1] == cs[n]
    requires Progress(cs, n, was)
    ensures Progress(cs, n + 1, now)
  {
    hide Reaches, Inv, ByFirstRoot, RootsLast, AllReached, FieldDeps;
    NowReached(cs, n, was, now);
    FirstRootStep(cs, n, was, now);
    RootsLastStep(cs, n, was, now);
  }

  lemma NowReached(cs: seq<Composite>, n: nat, was: seq<Composite>, now: seq<Composite>)
    requires UniqueNames(cs) && n < |cs| && was <= now && Inv(cs, now, Names(now), {}) && cs[n].sqlName in Names(now)
    requires AllReached(cs, cs[n].sqlName, now, |was|)
    requires forall name :: name in Names(cs) ==> (name in Names(was) <==> ReachedFromPrefix(cs, n, name))
    ensures forall name :: name in Names(cs) ==> (name in Names(now) <==> ReachedFromPrefix(cs, n + 1, name))
  {
    hide Reaches, FieldDeps, DependenciesFirst;
    NamesOfPrefix(was, now);
    forall name | name in Names(cs) ensures name in Names(now) <==> ReachedFromPrefix(cs, n + 1, name) {
      if name in Names(now) {
        var c :| c in now && c.sqlName == name;
        var p :| 0 <= p < |now| && now[p] == c;
        if p < |was| {
          assert was[p] == c;
          assert name in Names(was);
          PrefixGrows(cs, n, n + 1, name);
        } else {
          assert Reaches(cs, cs[n].sqlName, now[p].sqlName);
        }
      }
      if ReachedFromPrefix(cs, n + 1, name) {
        var k :| 0 <= k < n + 1 && Reaches(cs, cs[k].sqlName, name);
        if k < n {
          assert ReachedFromPrefix(cs, n, name);
        } else {
          ReachedIsPlaced(cs, now, cs[n].sqlName, name);
        }
      }
    }
  }

  lemma ReachedIsPlaced(cs: seq<Composite>, now: seq<Composite>, a: string, name: string)
    requires Inv(cs, now, Names(now), {}) && a in Names(now) && Reaches(cs, a, name) && name in Names(cs) && UniqueNames(cs)
    ensures name in Names(now)
  {
    hide FieldDeps, DependenciesFirst;
    var walk :| IsWalk(cs, walk, a, name);
    forall c, d | c in cs && c.sqlName in Names(now) && d in Deps(c) && d in Names(cs) ensures d in Names(now) {
      var e :| e in now && e.sqlName == c.sqlName;
      NameDeterminesComposite(cs, c, e);
      assert d in Names(now) + {};
    }
    ClosedWithinSupplied(cs, Names(now), walk, a, name);
  }

  lemma PlacedEarlier(was: seq<Composite>, now: seq<Composite>, q: nat)
    requires was <= now && UniqueNames(now) && |was| <= q < |now|
    ensures now[q].sqlName !in Names(was)
  {
    forall c | c in was ensures c.sqlName != now[q].sqlName {
      var j :| 0 <= j < |was| && was[j] == c;
      assert now[j] == was[j];
    }
  }

  /** Later additions are reached from no earlier root. */
  lemma AddedIsNew(cs: seq<Composite>, n: nat, m: nat, was: seq<Composite>, now: seq<Composite>, q: nat)
    requires m <= n <= |cs| && was <= now && Inv(cs, now, Names(now), {}) && |was| <= q < |now|
    requires forall name :: name in Names(cs) ==> (name in Names(was) <==> ReachedFromPrefix(cs, n, name))
    ensures !ReachedFromPrefix(cs, m, now[q].sqlName)
  {
    hide Reaches, FieldDeps, DependenciesFirst;
    PlacedEarlier(was, now, q);
    assert now[q] in now && now[q].sqlName in Names(cs);
    if ReachedFromPrefix(cs, m, now[q].sqlName) {
      PrefixGrows(cs, m, n, now[q].sqlName);
      assert false;
    }
  }

  lemma FirstRootStep(cs: seq<Composite>, n: nat, was: seq<Composite>, now: seq<Composite>)
    requires n < |cs| && was <= now && Inv(cs, now, Names(now), {})
    requires Progress(cs, n, was)
    requires forall name :: name in Names(cs) ==> (name in Names(now) <==> ReachedFromPrefix(cs, n + 1, name))
    ensures ByFirstRoot(cs, now)
  {
    hide Reaches, FieldDeps, DependenciesFirst, RootsLast;
    forall m, p, q | 0 <= m <= |cs| && 0 <= p < q < |now| && ReachedFromPrefix(cs, m, now[q].sqlName)
      ensures ReachedFromPrefix(cs, m, now[p].sqlName)
    {
      if q < |was| {
        assert was[q] == now[q] && was[p] == now[p];
      } else {
        if m <= n {
          AddedIsNew(cs, n, m, was, now, q);
          assert false;
        } else {
          assert now[p] in now && now[p].sqlName in Names(cs);
          PrefixGrows(cs, n + 1, m, now[p].sqlName);
        }
      }
    }
  }

  /** A root with something after it was placed before its own turn. */
  lemma RootWasPlaced(root: Composite, was: seq<Composite>, now: seq<Composite>, p: nat, q: nat)
    requires UniqueNames(now) && p < q < |now| && now[p] == root
    requires root.sqlName !in Names(was) ==> now[|now| - 1] == root
    ensures root.sqlName in Names(was)
  {
    hide Names;
  }

  lemma RootsLastStep(cs: seq<Composite>, n: nat, was: seq<Composite>, now: seq<Composite>)
    requires UniqueNames(cs) && n < |cs| && was <= now && now != [] && Inv(cs, now, Names(now), {})
    requires Progress(cs, n, was)
    requires cs[n].sqlName !in Names(was) ==> now[|now| - 1] == cs[n]
    requires forall name :: name in Names(cs) ==> (name in Names(now) <==> ReachedFromPrefix(cs, n + 1, name))
    ensures RootsLast(cs, now)
  {
    hide Reaches, FieldDeps, DependenciesFirst, ByFirstRoot;
    forall k, p, q | 0 <= k < |cs| && 0 <= p < q < |now| && now[p] == cs[k]
      ensures ReachedFromPrefix(cs, k, cs[k].sqlName) || !ReachedFromPrefix(cs, k + 1, now[q].sqlName)
    {
      assert now[p] in now && now[p].sqlName in Names(cs);
      if q < |was| {
        assert was[q] == now[q] && was[p] == now[p];
      } else if k < n {
        AddedIsNew(cs, n, k + 1, was, now, q);
      } else if k == n {
        RootWasPlaced(cs[n], was, now, p, q);
      } else {
        PrefixGrows(cs, n + 1, k, cs[k].sqlName);
      }
    }
  }
}
