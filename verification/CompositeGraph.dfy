/**
 Composite types as a graph: which composites a composite's fields name, walks along those
 edges, and what it means for a list of definitions to put dependencies first.
 */
module CompositeGraph {
  import opened Wrappers
  import opened NeutralTypes

  datatype Field = Field(name: string, neutralType: string, nullable: bool)
  datatype Composite = Composite(sqlName: string, fields: seq<Field>)

  const COMPOSITE_PREFIX := "composite::"

  /** `strip_prefix("composite::")` of an already unwrapped neutral type. */
  function CompositeName(unwrapped: string): Option<string> {
    if COMPOSITE_PREFIX <= unwrapped then Some(unwrapped[|COMPOSITE_PREFIX|..]) else None
  }

  /** The composite a field type names, through any depth of wrappers. */
  function Named(neutralType: string): Option<string> {
    CompositeName(Innermost(neutralType))
  }

  /** A type names a composite exactly when its innermost type is that name behind the prefix. */
  lemma NamedIff(neutralType: string, name: string)
    ensures Named(neutralType) == Some(name) <==> Innermost(neutralType) == "composite::" + name
  {
    var u := Innermost(neutralType);
    if "composite::" <= u {
      assert u == "composite::" + u[11..];
    }
    if u == "composite::" + name {
      assert u[11..] == name;
    }
  }

  /** The composites a list of fields names, in one set. */
  function FieldDeps(fields: seq<Field>): set<string> {
    if fields == [] then {}
    else FieldDeps(fields[..|fields| - 1]) + OneDep(fields[|fields| - 1])
  }

  function OneDep(f: Field): set<string> {
    if Named(f.neutralType).Some? then {Named(f.neutralType).value} else {}
  }

  function Deps(c: Composite): set<string> {
    FieldDeps(c.fields)
  }

  lemma {:induction false} FieldDepsAre(fields: seq<Field>, d: string)
    ensures d in FieldDeps(fields) <==> exists f :: f in fields && Named(f.neutralType) == Some(d)
  {
    hide Named;
    if fields != [] {
      var init, last := fields[..|fields| - 1], fields[|fields| - 1];
      FieldDepsAre(init, d);
      assert forall f :: f in fields <==> f in init || f == last;
    }
  }

  lemma {:induction false} FieldDepsGrow(fields: seq<Field>, i: nat)
    requires i < |fields|
    ensures FieldDeps(fields[..i + 1]) == FieldDeps(fields[..i]) + OneDep(fields[i])
    ensures OneDep(fields[i]) <= FieldDeps(fields)
  {
    assert fields[..i + 1][..i] == fields[..i];
    forall d | d in OneDep(fields[i]) ensures d in FieldDeps(fields) {
      assert fields[i] in fields;
      FieldDepsAre(fields, d);
    }
  }

  function Names(cs: seq<Composite>): set<string> {
    set c | c in cs :: c.sqlName
  }

  /** The analyzer deduplicates composites by name. */
  predicate UniqueNames(cs: seq<Composite>) {
    forall i, j :: 0 <= i < j < |cs| ==> cs[i].sqlName != cs[j].sqlName
  }

  ghost predicate Refers(cs: seq<Composite>, a: string, b: string) {
    exists c :: c in cs && c.sqlName == a && b in Deps(c)
  }

  ghost predicate IsWalk(cs: seq<Composite>, walk: seq<string>, a: string, b: string) {
    && walk != [] && walk[0] == a && walk[|walk| - 1] == b
    && forall i :: 0 <= i < |walk| - 1 ==> Refers(cs, walk[i], walk[i + 1])
  }

  ghost predicate Reaches(cs: seq<Composite>, a: string, b: string) {
    exists walk :: IsWalk(cs, walk, a, b)
  }

  lemma ReachesItself(cs: seq<Composite>, a: string)
    ensures Reaches(cs, a, a)
  {
    assert IsWalk(cs, [a], a, a);
  }

  lemma ReachesTransitive(cs: seq<Composite>, a: string, b: string, c: string)
    requires Reaches(cs, a, b) && Reaches(cs, b, c)
    ensures Reaches(cs, a, c)
  {
    var p :| IsWalk(cs, p, a, b);
    var q :| IsWalk(cs, q, b, c);
    var w := p + q[1..];
    forall i | 0 <= i < |w| - 1 ensures Refers(cs, w[i], w[i + 1]) {
      if i >= |p| - 1 {
        assert w[i] == q[i - |p| + 1] && w[i + 1] == q[i - |p| + 2];
      }
    }
    assert IsWalk(cs, w, a, c);
  }

  lemma ReachesByField(cs: seq<Composite>, c: Composite, d: string)
    requires c in cs && d in Deps(c)
    ensures Reaches(cs, c.sqlName, d)
  {
    assert Refers(cs, c.sqlName, d);
    assert IsWalk(cs, [c.sqlName, d], c.sqlName, d);
  }

  /** A set closed under references that holds the start of a walk holds its end. */
  lemma {:induction false} ClosedUnderWalks(cs: seq<Composite>, s: set<string>, walk: seq<string>, a: string, b: string)
    requires forall c, d :: c in cs && c.sqlName in s && d in Deps(c) ==> d in s
    requires a in s && IsWalk(cs, walk, a, b)
    ensures b in s
    decreases |walk|
  {
    if |walk| > 1 {
      assert Refers(cs, walk[0], walk[1]);
      assert walk[1] in s;
      ClosedUnderWalks(cs, s, walk[1..], walk[1], b);
    }
  }

  /** The same for a set that is only closed under references to supplied composites. */
  lemma {:induction false} ClosedWithinSupplied(cs: seq<Composite>, s: set<string>, walk: seq<string>, a: string, b: string)
    requires forall c, d :: c in cs && c.sqlName in s && d in Deps(c) && d in Names(cs) ==> d in s
    requires a in s && IsWalk(cs, walk, a, b) && b in Names(cs)
    ensures b in s
    decreases |walk|
  {
    hide FieldDeps;
    if |walk| > 1 {
      assert Refers(cs, walk[0], walk[1]);
      assert walk[1] in Names(cs) by {
        assert |walk| > 2 ==> Refers(cs, walk[1], walk[2]);
      }
      ClosedWithinSupplied(cs, s, walk[1..], walk[1], b);
    }
  }

  /** Everything placed from position `at` on is reached from `a`. */
  ghost predicate AllReached(cs: seq<Composite>, a: string, ordered: seq<Composite>, at: nat) {
    forall k :: at <= k < |ordered| ==> Reaches(cs, a, ordered[k].sqlName)
  }

  lemma NothingAdded(cs: seq<Composite>, a: string, ordered: seq<Composite>)
    ensures AllReached(cs, a, ordered, |ordered|)
  {
  }

  lemma AllReachedPush(cs: seq<Composite>, a: string, ordered: seq<Composite>, at: nat, c: Composite)
    requires AllReached(cs, a, ordered, at) && Reaches(cs, a, c.sqlName)
    ensures AllReached(cs, a, ordered + [c], at)
  {
  }

  lemma AllReachedThrough(cs: seq<Composite>, a: string, d: string, was: seq<Composite>, now: seq<Composite>, at: nat)
    requires Reaches(cs, a, d) && was <= now && at <= |was|
    requires AllReached(cs, a, was, at) && AllReached(cs, d, now, |was|)
    ensures AllReached(cs, a, now, at)
  {
    forall k | at <= k < |now| ensures Reaches(cs, a, now[k].sqlName) {
      if k < |was| {
        assert was[k] == now[k];
      } else {
        ReachesTransitive(cs, a, d, now[k].sqlName);
      }
    }
  }

  /** Every name on the current path reaches `a`. */
  ghost predicate AllReach(cs: seq<Composite>, path: set<string>, a: string) {
    forall v :: v in path ==> Reaches(cs, v, a)
  }

  lemma PathReaches(cs: seq<Composite>, path: set<string>, a: string, d: string)
    requires AllReach(cs, path, a) && Reaches(cs, a, d)
    ensures AllReach(cs, path + {a}, d)
  {
    forall v | v in path ensures Reaches(cs, v, d) {
      ReachesTransitive(cs, v, a, d);
    }
  }

  // ---------- orderings ----------

  /** `d` is defined before position `i`. */
  predicate DefinedBefore(ordered: seq<Composite>, i: nat, d: string)
    requires i <= |ordered|
  {
    exists j :: 0 <= j < i && ordered[j].sqlName == d
  }

  /** `x` stands before `y`. */
  ghost predicate Before(ordered: seq<Composite>, x: string, y: string) {
    exists p, q :: 0 <= p < q < |ordered| && ordered[p].sqlName == x && ordered[q].sqlName == y
  }

  lemma BeforeIsOneWay(ordered: seq<Composite>, x: string, y: string)
    requires UniqueNames(ordered) && Before(ordered, x, y)
    ensures !Before(ordered, y, x)
  {
  }

  lemma BeforeStays(was: seq<Composite>, now: seq<Composite>, x: string, y: string)
    requires was <= now && Before(was, x, y)
    ensures Before(now, x, y)
  {
    var p, q :| 0 <= p < q < |was| && was[p].sqlName == x && was[q].sqlName == y;
    assert now[p] == was[p] && now[q] == was[q];
  }

  /** The definitions listed stand in the order they have in `ordered`. */
  ghost predicate InOrderOf(ordered: seq<Composite>, listed: seq<Composite>) {
    forall p, q :: 0 <= p < q < |listed| ==> Before(ordered, listed[p].sqlName, listed[q].sqlName)
  }

  /** Every supplied composite a definition names precedes it, unless the two form a cycle. */
  ghost predicate DependenciesFirst(cs: seq<Composite>, ordered: seq<Composite>) {
    forall i, d :: 0 <= i < |ordered| && d in Deps(ordered[i]) && d in Names(cs)
      ==> Reaches(cs, d, ordered[i].sqlName) || DefinedBefore(ordered, i, d)
  }

  /** A catalog without reference cycles among its supplied composites. */
  ghost predicate Acyclic(cs: seq<Composite>) {
    forall c, d :: c in cs && d in Deps(c) && d in Names(cs) ==> !Reaches(cs, d, c.sqlName)
  }

  /** Every definition names only itself and what stands before it. */
  predicate BackwardOrSelf(cs: seq<Composite>, ordered: seq<Composite>) {
    forall i, d :: 0 <= i < |ordered| && d in Deps(ordered[i]) && d in Names(cs)
      ==> d == ordered[i].sqlName || DefinedBefore(ordered, i, d)
  }

  predicate AlreadyOrdered(cs: seq<Composite>) {
    BackwardOrSelf(cs, cs)
  }

  /** In such an order a chain of references never leads to a later definition. */
  lemma {:induction false} WalksGoBack(cs: seq<Composite>, ordered: seq<Composite>, i: nat, walk: seq<string>, a: string, b: string)
    requires UniqueNames(cs) && (forall c :: c in ordered ==> c in cs) && BackwardOrSelf(cs, ordered)
    requires i <= |ordered| && DefinedBefore(ordered, i, a)
    requires IsWalk(cs, walk, a, b) && b in Names(cs)
    ensures DefinedBefore(ordered, i, b)
    decreases |walk|
  {
    hide FieldDeps;
    if |walk| > 1 {
      assert Refers(cs, walk[0], walk[1]);
      assert walk[1] in Names(cs) by {
        assert |walk| > 2 ==> Refers(cs, walk[1], walk[2]);
      }
      var c :| c in cs && c.sqlName == a && walk[1] in Deps(c);
      var j :| 0 <= j < i && ordered[j].sqlName == a;
      assert ordered[j] in ordered;
      NameDeterminesComposite(cs, ordered[j], c);
      assert walk[1] == a || DefinedBefore(ordered, j, walk[1]);
      WalksGoBack(cs, ordered, i, walk[1..], walk[1], b);
    }
  }

  ghost predicate ReachedFromPrefix(cs: seq<Composite>, n: nat, name: string)
    requires n <= |cs|
  {
    exists k :: 0 <= k < n && Reaches(cs, cs[k].sqlName, name)
  }

  /**
   Nothing jumps the queue without a reason: whatever is placed at or before the i-th input was
   itself among the first inputs up to the i-th, or is reached from one of them.
   */
  ghost predicate KeepsInputOrder(cs: seq<Composite>, ordered: seq<Composite>) {
    forall i, p, q :: 0 <= i < |cs| && 0 <= p <= q < |ordered| && ordered[q] == cs[i]
      ==> ReachedFromPrefix(cs, i + 1, ordered[p].sqlName)
  }

  /** The order is by the first input each composite is reached from. */
  ghost predicate ByFirstRoot(cs: seq<Composite>, ordered: seq<Composite>) {
    forall n, p, q :: 0 <= n <= |cs| && 0 <= p < q < |ordered| && ReachedFromPrefix(cs, n, ordered[q].sqlName)
      ==> ReachedFromPrefix(cs, n, ordered[p].sqlName)
  }

  /** An input no earlier one reaches comes after everything else it is the first to reach. */
  ghost predicate RootsLast(cs: seq<Composite>, ordered: seq<Composite>) {
    forall n, p, q :: 0 <= n < |cs| && 0 <= p < q < |ordered| && ordered[p] == cs[n]
      ==> ReachedFromPrefix(cs, n, cs[n].sqlName) || !ReachedFromPrefix(cs, n + 1, ordered[q].sqlName)
  }

  lemma NameDeterminesComposite(cs: seq<Composite>, c: Composite, d: Composite)
    requires UniqueNames(cs) && c in cs && d in cs && c.sqlName == d.sqlName
    ensures c == d
  {
  }

  lemma {:induction false} UniqueListsAreRearrangements(xs: seq<Composite>, ys: seq<Composite>)
    requires UniqueNames(xs) && UniqueNames(ys)
    requires forall c :: c in xs <==> c in ys
    ensures multiset(xs) == multiset(ys)
  {
    forall c ensures multiset(xs)[c] == multiset(ys)[c] {
      OccursOnce(xs, c);
      OccursOnce(ys, c);
    }
  }

  lemma OccursOnce(xs: seq<Composite>, c: Composite)
    requires UniqueNames(xs)
    ensures multiset(xs)[c] == if c in xs then 1 else 0
  {
    if c in xs {
      var p :| 0 <= p < |xs| && xs[p] == c;
      assert xs == xs[..p] + [c] + xs[p + 1..];
      assert c !in xs[..p] && c !in xs[p + 1..];
    }
  }
}
