/** What the dependency walk does to discovery order: which ties it breaks, and what cycles become. */
module DiscoveryOrder {
  import opened Wrappers
  import opened NeutralTypes
  import opened CompositeGraph
  import opened CompositeOrder

  // ---------- ties ----------

  /** The first input that leads to a composite. */
  ghost predicate IsFirstRoot(cs: seq<Composite>, n: nat, name: string) {
    n < |cs| && Reaches(cs, cs[n].sqlName, name) && !ReachedFromPrefix(cs, n, name)
  }

  lemma {:induction false} FirstRootWithin(cs: seq<Composite>, m: nat, name: string) returns (n: nat)
    requires m <= |cs| && ReachedFromPrefix(cs, m, name)
    ensures n < m && IsFirstRoot(cs, n, name)
  {
    hide Reaches;
    if ReachedFromPrefix(cs, m - 1, name) {
      n := FirstRootWithin(cs, m - 1, name);
    } else {
      n := m - 1;
    }
  }

  /** Every supplied composite has a first root, at or before its own position. */
  lemma FirstRootExists(cs: seq<Composite>, i: nat) returns (n: nat)
    requires i < |cs|
    ensures n <= i && IsFirstRoot(cs, n, cs[i].sqlName)
  {
    hide Reaches;
    ReachesItself(cs, cs[i].sqlName);
    assert ReachedFromPrefix(cs, i + 1, cs[i].sqlName);
    n := FirstRootWithin(cs, i + 1, cs[i].sqlName);
  }

  lemma FirstRootIsUnique(cs: seq<Composite>, m: nat, n: nat, name: string)
    requires IsFirstRoot(cs, m, name) && IsFirstRoot(cs, n, name)
    ensures m == n
  {
    hide Reaches;
  }

  /**
   Of two composites with different first roots, the one with the earlier root is placed first. So
   two unrelated inputs are swapped if something before both, or the first of them, leads to the
   second sooner than anything leads to the first.
   */
  lemma TiesFollowFirstRoots(cs: seq<Composite>, ordered: seq<Composite>, p: nat, q: nat, m: nat, n: nat)
    requires ByFirstRoot(cs, ordered) && p < |ordered| && q < |ordered|
    requires IsFirstRoot(cs, m, ordered[p].sqlName) && IsFirstRoot(cs, n, ordered[q].sqlName) && m != n
    ensures p < q <==> m < n
  {
    hide Reaches;
    assert ReachedFromPrefix(cs, m + 1, ordered[p].sqlName) && ReachedFromPrefix(cs, n + 1, ordered[q].sqlName);
    if m < n {
      assert !ReachedFromPrefix(cs, m + 1, ordered[q].sqlName) by {
        assert m + 1 <= n;
      }
    } else {
      assert !ReachedFromPrefix(cs, n + 1, ordered[p].sqlName);
    }
  }

  /** An input that is its own first root follows everything else with that first root. */
  lemma RootFollowsItsOwn(cs: seq<Composite>, ordered: seq<Composite>, p: nat, q: nat, n: nat)
    requires RootsLast(cs, ordered) && p < |ordered| && q < |ordered| && p != q
    requires IsFirstRoot(cs, n, ordered[p].sqlName) && ordered[p] == cs[n]
    requires IsFirstRoot(cs, n, ordered[q].sqlName)
    ensures q < p
  {
    hide Reaches;
    assert ReachedFromPrefix(cs, n + 1, ordered[q].sqlName);
  }

  // ---------- cycles ----------

  /** Two different composites that lead to each other are never left in discovery order. */
  lemma CyclesLeaveDiscoveryOrder(cs: seq<Composite>, c: Composite, d: string)
    requires UniqueNames(cs) && c in cs && d in Deps(c) && d in Names(cs) && d != c.sqlName
    requires Reaches(cs, d, c.sqlName)
    ensures Order(cs) != cs
  {
    hide FieldDeps, Order;
    OrderUnchangedIff(cs);
    if AlreadyOrdered(cs) {
      var i :| 0 <= i < |cs| && cs[i] == c;
      assert DefinedBefore(cs, i, d);
      var walk :| IsWalk(cs, walk, d, c.sqlName);
      WalksGoBack(cs, cs, i, walk, d, c.sqlName);
      assert false;
    }
  }

  // ---------- inputs ----------

  function Holding(names: seq<string>): (fields: seq<Field>)
    ensures |fields| == |names|
    ensures forall i :: 0 <= i < |fields| ==> fields[i] == Field("f", COMPOSITE_PREFIX + names[i], false)
  {
    seq(|names|, i requires 0 <= i < |names| => Field("f", COMPOSITE_PREFIX + names[i], false))
  }

  lemma BareName(name: string)
    ensures Named(COMPOSITE_PREFIX + name) == Some(name)
  {
    var s := COMPOSITE_PREFIX + name;
    assert s[0] == 'c';
    assert s[|COMPOSITE_PREFIX|..] == name;
  }

  lemma PlacesLeaf(cs: seq<Composite>, comp: Composite, ordered: seq<Composite>, path: set<string>)
    requires UniqueNames(cs) && comp in cs && comp.fields == [] && comp.sqlName !in Names(ordered) + path
    ensures Visited(cs, comp, ordered, path) == ordered + [comp]
  {
    VisitedOpens(cs, comp, ordered, path);
  }

  /** Visiting fields that name one more composite visits that composite last. */
  lemma FieldVisits(cs: seq<Composite>, names: seq<string>, i: nat, d: Composite, ordered: seq<Composite>, path: set<string>)
    requires UniqueNames(cs) && i < |names| && d in cs && d.sqlName == names[i]
    ensures VisitedFields(cs, Holding(names)[..i + 1], ordered, path)
         == Visited(cs, d, VisitedFields(cs, Holding(names)[..i], ordered, path), path)
  {
    hide Visited, VisitedFields, Named, ByName;
    BareName(names[i]);
    ByNameFinds(cs, names[i]);
    NameDeterminesComposite(cs, ByName(cs)[names[i]], d);
    VisitedFieldsGrow(cs, Holding(names), i, ordered, path);
  }

  lemma NoFields(cs: seq<Composite>, names: seq<string>, ordered: seq<Composite>, path: set<string>)
    requires UniqueNames(cs)
    ensures VisitedFields(cs, Holding(names)[..0], ordered, path) == ordered
    ensures Holding(names)[..|names|] == Holding(names)
  {
  }

  /**
   An input where a tie is broken: `b` is related to neither of the others, yet `c`, discovered
   after it, overtakes it because `a` holds a `c`.
   */
  lemma TieIsOvertaken(a: Composite, b: Composite, c: Composite)
    requires a == Composite("a", Holding(["c"])) && b == Composite("b", []) && c == Composite("c", [])
    ensures UniqueNames([a, b, c]) && Order([a, b, c]) == [c, a, b]
  {
    hide Visited, VisitedFields, Holding;
    var cs := [a, b, c];
    assert VisitedRoots(cs, 1) == Visited(cs, a, [], {}) by { assert VisitedRoots(cs, 0) == []; }
    VisitedOpens(cs, a, [], {});
    NoFields(cs, ["c"], [], {"a"});
    FieldVisits(cs, ["c"], 0, c, [], {"a"});
    PlacesLeaf(cs, c, [], {"a"});
    assert {} + {"a"} == {"a"};
    assert VisitedFields(cs, a.fields, [], {"a"}) == [c];
    assert VisitedRoots(cs, 1) == [c, a];
    PlacesLeaf(cs, b, [c, a], {});
    VisitedOpens(cs, c, [c, a, b], {});
    assert VisitedRoots(cs, 2) == [c, a, b];
  }

  /** Two composites that hold each other come out in the reverse of discovery order. */
  lemma TwoCycleIsReversed(a: Composite, b: Composite)
    requires a == Composite("a", Holding(["b"])) && b == Composite("b", Holding(["a"]))
    ensures UniqueNames([a, b]) && Order([a, b]) == [b, a]
  {
    hide Visited, VisitedFields, Holding;
    var cs := [a, b];
    assert VisitedRoots(cs, 1) == Visited(cs, a, [], {}) by { assert VisitedRoots(cs, 0) == []; }
    VisitedOpens(cs, a, [], {});
    NoFields(cs, ["b"], [], {"a"});
    FieldVisits(cs, ["b"], 0, b, [], {"a"});
    VisitedOpens(cs, b, [], {"a"});
    NoFields(cs, ["a"], [], {"a"} + {"b"});
    FieldVisits(cs, ["a"], 0, a, [], {"a"} + {"b"});
    VisitedOpens(cs, a, [], {"a"} + {"b"});
    assert {} + {"a"} == {"a"};
    assert VisitedFields(cs, b.fields, [], {"a"} + {"b"}) == [];
    assert VisitedFields(cs, a.fields, [], {"a"}) == [b];
    assert VisitedRoots(cs, 1) == [b, a];
    VisitedOpens(cs, b, [b, a], {});
  }

  /** With one first root, the fields decide: the later of two inputs may come first. */
  lemma FieldsDecideWithinARoot(r: Composite, x: Composite, y: Composite)
    requires r == Composite("r", Holding(["y", "x"])) && x == Composite("x", []) && y == Composite("y", [])
    ensures UniqueNames([r, x, y]) && Order([r, x, y]) == [y, x, r]
  {
    hide Visited, VisitedFields, Holding;
    var cs := [r, x, y];
    var names := ["y", "x"];
    assert VisitedRoots(cs, 1) == Visited(cs, r, [], {}) by { assert VisitedRoots(cs, 0) == []; }
    VisitedOpens(cs, r, [], {});
    NoFields(cs, names, [], {"r"});
    FieldVisits(cs, names, 0, y, [], {"r"});
    PlacesLeaf(cs, y, [], {"r"});
    assert VisitedFields(cs, r.fields[..1], [], {"r"}) == [y];
    FieldVisits(cs, names, 1, x, [], {"r"});
    PlacesLeaf(cs, x, [y], {"r"});
    assert {} + {"r"} == {"r"};
    assert r.fields[..2] == r.fields;
    assert VisitedFields(cs, r.fields, [], {"r"}) == [y, x];
    assert VisitedRoots(cs, 1) == [y, x, r];
    VisitedOpens(cs, x, [y, x, r], {});
    assert VisitedRoots(cs, 2) == [y, x, r];
    VisitedOpens(cs, y, [y, x, r], {});
  }
}
