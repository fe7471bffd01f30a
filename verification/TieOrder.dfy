/**
 Which unrelated composites the dependency walk swaps, on catalogs without cycles.

 A composite's fields are to its visit what the inputs are to the walk: what the earlier field
 leads to is placed first. Following that rule down the fields decides every tie.
 */
module TieOrder {
  import opened Wrappers
  import opened NeutralTypes
  import opened CompositeGraph
  import opened CompositeOrder
  import opened DiscoveryOrder

  // ---------- what a composite and its fields lead to ----------

  ghost function Below(cs: seq<Composite>, a: string): set<string> {
    set n | n in Names(cs) && Reaches(cs, a, n)
  }

  /** The supplied composite a field names. */
  function Supplied(cs: seq<Composite>, f: Field): Option<Composite> {
    var dep := Named(f.neutralType);
    if dep.Some? && dep.value in ByName(cs) then Some(ByName(cs)[dep.value]) else None
  }

  lemma SuppliedIs(cs: seq<Composite>, c: Composite, i: nat)
    requires UniqueNames(cs) && c in cs && i < |c.fields| && Supplied(cs, c.fields[i]).Some?
    ensures var d := Supplied(cs, c.fields[i]).value;
            d in cs && d.sqlName in Names(cs) && d.sqlName in Deps(c)
  {
    hide FieldDeps, ByName, Named;
    var f := c.fields[i];
    ByNameFinds(cs, Named(f.neutralType).value);
    assert f in c.fields;
    FieldDepsAre(c.fields, Named(f.neutralType).value);
  }

  ghost predicate LeadsTo(cs: seq<Composite>, f: Field, x: string) {
    Supplied(cs, f).Some? && Reaches(cs, Supplied(cs, f).value.sqlName, x)
  }

  /** The first field of `c` that leads to `x`. */
  ghost predicate FirstField(cs: seq<Composite>, c: Composite, i: nat, x: string) {
    i < |c.fields| && LeadsTo(cs, c.fields[i], x) && forall k :: 0 <= k < i ==> !LeadsTo(cs, c.fields[k], x)
  }

  /** What the first `i` fields of `c` lead to. */
  ghost predicate LedTo(cs: seq<Composite>, c: Composite, i: nat, x: string)
    requires i <= |c.fields|
  {
    exists k :: 0 <= k < i && LeadsTo(cs, c.fields[k], x)
  }

  lemma {:induction false} FirstFieldWithin(cs: seq<Composite>, c: Composite, m: nat, x: string) returns (i: nat)
    requires m <= |c.fields| && LedTo(cs, c, m, x)
    ensures i < m && FirstField(cs, c, i, x)
  {
    hide LeadsTo;
    if LedTo(cs, c, m - 1, x) {
      i := FirstFieldWithin(cs, c, m - 1, x);
    } else {
      i := m - 1;
    }
  }

  lemma BelowShrinks(cs: seq<Composite>, c: Composite, i: nat)
    requires UniqueNames(cs) && Acyclic(cs) && c in cs && i < |c.fields| && Supplied(cs, c.fields[i]).Some?
    ensures Below(cs, Supplied(cs, c.fields[i]).value.sqlName) < Below(cs, c.sqlName)
    ensures c.sqlName in Below(cs, c.sqlName) && c.sqlName !in Below(cs, Supplied(cs, c.fields[i]).value.sqlName)
  {
    hide Reaches, FieldDeps, Supplied;
    var d := Supplied(cs, c.fields[i]).value.sqlName;
    SuppliedIs(cs, c, i);
    ReachesItself(cs, c.sqlName);
    ReachesByField(cs, c, d);
    forall n | n in Below(cs, d) ensures n in Below(cs, c.sqlName) {
      ReachesTransitive(cs, c.sqlName, d, n);
    }
    assert c.sqlName in Below(cs, c.sqlName) && c.sqlName !in Below(cs, d);
  }

  /** A composite leads to itself and to what its fields lead to, and to nothing else. */
  lemma BelowIs(cs: seq<Composite>, c: Composite, x: string)
    requires UniqueNames(cs) && c in cs && x in Names(cs)
    ensures Reaches(cs, c.sqlName, x) <==> x == c.sqlName || LedTo(cs, c, |c.fields|, x)
  {
    hide FieldDeps, Supplied, Reaches;
    ReachesItself(cs, c.sqlName);
    if LedTo(cs, c, |c.fields|, x) {
      var k :| 0 <= k < |c.fields| && LeadsTo(cs, c.fields[k], x);
      SuppliedIs(cs, c, k);
      var d := Supplied(cs, c.fields[k]).value.sqlName;
      ReachesByField(cs, c, d);
      ReachesTransitive(cs, c.sqlName, d, x);
    }
    if Reaches(cs, c.sqlName, x) && x != c.sqlName {
      var d := FirstStep(cs, c, x);
      var k := FieldNaming(cs, c, d);
      assert LeadsTo(cs, c.fields[k], x);
    }
  }

  /** The second name of a walk: a supplied dependency that leads on. */
  lemma FirstStep(cs: seq<Composite>, c: Composite, x: string) returns (d: string)
    requires UniqueNames(cs) && c in cs && x in Names(cs) && x != c.sqlName && Reaches(cs, c.sqlName, x)
    ensures d in Deps(c) && d in Names(cs) && Reaches(cs, d, x)
  {
    hide FieldDeps;
    var walk :| IsWalk(cs, walk, c.sqlName, x);
    d := walk[1];
    assert Refers(cs, walk[0], walk[1]);
    var e :| e in cs && e.sqlName == walk[0] && walk[1] in Deps(e);
    NameDeterminesComposite(cs, c, e);
    assert IsWalk(cs, walk[1..], d, x) by {
      forall i | 0 <= i < |walk| - 2 ensures Refers(cs, walk[1..][i], walk[1..][i + 1]) {
        assert Refers(cs, walk[i + 1], walk[i + 2]);
      }
    }
    assert |walk| > 2 ==> Refers(cs, walk[1], walk[2]);
  }

  lemma FieldNaming(cs: seq<Composite>, c: Composite, d: string) returns (k: nat)
    requires UniqueNames(cs) && c in cs && d in Deps(c) && d in Names(cs)
    ensures k < |c.fields| && Supplied(cs, c.fields[k]).Some? && Supplied(cs, c.fields[k]).value.sqlName == d
  {
    hide FieldDeps, ByName, Named;
    FieldDepsAre(c.fields, d);
    var f :| f in c.fields && Named(f.neutralType) == Some(d);
    k :| 0 <= k < |c.fields| && c.fields[k] == f;
    ByNameFinds(cs, d);
  }

  // ---------- what a visit places ----------

  /** A list of supplied composites, each once, together with all they name. */
  ghost predicate Settled(cs: seq<Composite>, ordered: seq<Composite>) {
    && UniqueNames(ordered) && (forall c :: c in ordered ==> c in cs)
    && forall c :: c in ordered ==> Deps(c) * Names(cs) <= Names(ordered)
  }

  lemma SettledHoldsBelow(cs: seq<Composite>, ordered: seq<Composite>, a: string)
    requires UniqueNames(cs) && Settled(cs, ordered) && a in Names(ordered)
    ensures Below(cs, a) <= Names(ordered)
  {
    hide FieldDeps;
    forall n | n in Below(cs, a) ensures n in Names(ordered) {
      var walk :| IsWalk(cs, walk, a, n);
      forall c, d | c in cs && c.sqlName in Names(ordered) && d in Deps(c) && d in Names(cs) ensures d in Names(ordered) {
        var e :| e in ordered && e.sqlName == c.sqlName;
        NameDeterminesComposite(cs, c, e);
      }
      ClosedWithinSupplied(cs, Names(ordered), walk, a, n);
    }
  }

  /** Without cycles a visit places exactly what its composite leads to and is not placed yet. */
  lemma {:induction false} VisitPlacesBelow(cs: seq<Composite>, c: Composite, ordered: seq<Composite>, path: set<string>)
    requires UniqueNames(cs) && Acyclic(cs) && c in cs && Settled(cs, ordered)
    requires path !! Below(cs, c.sqlName)
    ensures Settled(cs, Visited(cs, c, ordered, path))
    ensures Names(Visited(cs, c, ordered, path)) == Names(ordered) + Below(cs, c.sqlName)
    decreases Below(cs, c.sqlName), |c.fields| + 1
  {
    hide Reaches, FieldDeps, Names, Settled, Below, Acyclic, Visited, VisitedFields;
    VisitedOpens(cs, c, ordered, path);
    InBelow(cs, c);
    if c.sqlName in Names(ordered) {
      SettledHoldsBelow(cs, ordered, c.sqlName);
    } else {
      FieldsPlaceLedTo(cs, c, |c.fields|, ordered, path);
      assert c.fields[..|c.fields|] == c.fields;
      PlaceLast(cs, c, ordered, VisitedFields(cs, c.fields, ordered, path + {c.sqlName}));
    }
  }

  lemma InBelow(cs: seq<Composite>, c: Composite)
    requires c in cs
    ensures c.sqlName in Below(cs, c.sqlName)
  {
    hide Reaches;
    ReachesItself(cs, c.sqlName);
  }

  ghost predicate PlacesLedTo(cs: seq<Composite>, c: Composite, i: nat, ordered: seq<Composite>, now: seq<Composite>)
    requires i <= |c.fields|
  {
    && Settled(cs, now)
    && forall n :: n in Names(now) <==> n in Names(ordered) || (n in Names(cs) && LedTo(cs, c, i, n))
  }

  lemma {:induction false} FieldsPlaceLedTo(cs: seq<Composite>, c: Composite, i: nat, ordered: seq<Composite>, path: set<string>)
    requires UniqueNames(cs) && Acyclic(cs) && c in cs && Settled(cs, ordered) && i <= |c.fields|
    requires path !! Below(cs, c.sqlName)
    ensures PlacesLedTo(cs, c, i, ordered, VisitedFields(cs, c.fields[..i], ordered, path + {c.sqlName}))
    decreases Below(cs, c.sqlName), i
  {
    hide Reaches, FieldDeps, Names, Settled, Below, Acyclic, Visited, VisitedFields, Supplied, LedTo, PlacesLedTo;
    var grey := path + {c.sqlName};
    if i == 0 {
      VisitedOpens(cs, c, ordered, path);
      assert c.fields[..0] == [];
      NothingLedTo(cs, c, ordered);
    } else {
      FieldsPlaceLedTo(cs, c, i - 1, ordered, path);
      NextField(cs, c, i - 1, ordered, grey);
      var r := VisitedFields(cs, c.fields[..i - 1], ordered, grey);
      PlacedIsSettled(cs, c, i - 1, ordered, r);
      if Supplied(cs, c.fields[i - 1]).Some? {
        var d := Supplied(cs, c.fields[i - 1]).value;
        SuppliedIs(cs, c, i - 1);
        BelowShrinks(cs, c, i - 1);
        VisitPlacesBelow(cs, d, r, grey);
      }
      OneMoreField(cs, c, i - 1, ordered, r, VisitedFields(cs, c.fields[..i], ordered, grey));
    }
  }

  lemma NothingLedTo(cs: seq<Composite>, c: Composite, ordered: seq<Composite>)
    requires Settled(cs, ordered)
    ensures PlacesLedTo(cs, c, 0, ordered, ordered)
  {
    hide Settled;
  }

  lemma PlacedIsSettled(cs: seq<Composite>, c: Composite, i: nat, ordered: seq<Composite>, now: seq<Composite>)
    requires i <= |c.fields| && PlacesLedTo(cs, c, i, ordered, now)
    ensures Settled(cs, now)
  {
  }

  /** How one more field changes what is placed. */
  lemma NextField(cs: seq<Composite>, c: Composite, i: nat, ordered: seq<Composite>, path: set<string>)
    requires UniqueNames(cs) && c in cs && i < |c.fields|
    ensures var r := VisitedFields(cs, c.fields[..i], ordered, path);
            && (Supplied(cs, c.fields[i]).Some? ==>
                  Supplied(cs, c.fields[i]).value in cs
                  && VisitedFields(cs, c.fields[..i + 1], ordered, path) == Visited(cs, Supplied(cs, c.fields[i]).value, r, path))
            && (Supplied(cs, c.fields[i]).None? ==> VisitedFields(cs, c.fields[..i + 1], ordered, path) == r)
  {
    hide Visited, VisitedFields, ByName, Named;
    VisitedFieldsGrow(cs, c.fields, i, ordered, path);
  }

  lemma OneMoreField(cs: seq<Composite>, c: Composite, i: nat, ordered: seq<Composite>, was: seq<Composite>, now: seq<Composite>)
    requires i < |c.fields| && PlacesLedTo(cs, c, i, ordered, was) && Settled(cs, now)
    requires var d := Supplied(cs, c.fields[i]);
             if d.Some? then Names(now) == Names(was) + Below(cs, d.value.sqlName) else now == was
    ensures PlacesLedTo(cs, c, i + 1, ordered, now)
  {
    hide Reaches, Names, Settled, Supplied;
    forall n ensures LedTo(cs, c, i + 1, n) <==> LedTo(cs, c, i, n) || LeadsTo(cs, c.fields[i], n) {
      LedToGrows(cs, c, i, n);
    }
  }

  lemma LedToGrows(cs: seq<Composite>, c: Composite, i: nat, n: string)
    requires i < |c.fields|
    ensures LedTo(cs, c, i + 1, n) <==> LedTo(cs, c, i, n) || LeadsTo(cs, c.fields[i], n)
  {
    hide LeadsTo;
  }

  lemma PlaceLast(cs: seq<Composite>, c: Composite, ordered: seq<Composite>, r: seq<Composite>)
    requires UniqueNames(cs) && Acyclic(cs) && c in cs && c.sqlName !in Names(ordered)
    requires PlacesLedTo(cs, c, |c.fields|, ordered, r)
    ensures Settled(cs, r + [c])
    ensures Names(r + [c]) == Names(ordered) + Below(cs, c.sqlName)
  {
    hide Reaches, FieldDeps, LedTo;
    NotLedToItself(cs, c);
    PlacedNames(r, c);
    assert c.sqlName in Names(cs);
    forall n | n in Names(cs) ensures n in Below(cs, c.sqlName) <==> n == c.sqlName || LedTo(cs, c, |c.fields|, n) {
      BelowIs(cs, c, n);
    }
    forall d | d in Deps(c) * Names(cs) ensures d in Names(r) {
      DepIsLedTo(cs, c, d);
    }
    assert forall e :: e in r + [c] <==> e in r || e == c;
  }

  lemma NotLedToItself(cs: seq<Composite>, c: Composite)
    requires UniqueNames(cs) && Acyclic(cs) && c in cs
    ensures !LedTo(cs, c, |c.fields|, c.sqlName)
  {
    hide Reaches, FieldDeps, Supplied, Acyclic;
    forall k | 0 <= k < |c.fields| ensures !LeadsTo(cs, c.fields[k], c.sqlName) {
      if Supplied(cs, c.fields[k]).Some? {
        BelowShrinks(cs, c, k);
        assert c.sqlName in Names(cs);
      }
    }
  }

  lemma DepIsLedTo(cs: seq<Composite>, c: Composite, d: string)
    requires UniqueNames(cs) && c in cs && d in Deps(c) && d in Names(cs)
    ensures LedTo(cs, c, |c.fields|, d)
  {
    hide Reaches, FieldDeps, Supplied;
    var k := FieldNaming(cs, c, d);
    ReachesItself(cs, d);
    assert LeadsTo(cs, c.fields[k], d);
  }

  // ---------- which of two comes first ----------

  /** What is placed when the other is not comes first. */
  lemma PlacedEarlierIsBefore(was: seq<Composite>, now: seq<Composite>, x: string, y: string)
    requires was <= now && x in Names(was) && y !in Names(was) && y in Names(now)
    ensures Before(now, x, y)
  {
    var c :| c in was && c.sqlName == x;
    var p :| 0 <= p < |was| && was[p] == c;
    var d :| d in now && d.sqlName == y;
    var q :| 0 <= q < |now| && now[q] == d;
    assert forall k :: 0 <= k < |was| ==> now[k] == was[k] && was[k] in was && was[k].sqlName != y;
  }

  /**
   The first field of `c` that leads to `x` stands before the first that leads to `y`; or they are
   one field, and the composite it names leads to `x` sooner.
   */
  ghost predicate Sooner(cs: seq<Composite>, c: Composite, x: string, y: string)
    requires UniqueNames(cs) && Acyclic(cs) && c in cs
    decreases Below(cs, c.sqlName), 1
  {
    exists i: nat :: i < |c.fields| && FirstField(cs, c, i, x) && !LedTo(cs, c, i, y)
      && (!LeadsTo(cs, c.fields[i], y) || SoonerIn(cs, c, i, x, y))
  }

  /** The second case, one field further down. */
  ghost predicate SoonerIn(cs: seq<Composite>, c: Composite, i: nat, x: string, y: string)
    requires UniqueNames(cs) && Acyclic(cs) && c in cs && i < |c.fields|
    decreases Below(cs, c.sqlName), 0
  {
    if Supplied(cs, c.fields[i]).None? then false
    else
      SuppliedIs(cs, c, i);
      BelowShrinks(cs, c, i);
      Sooner(cs, Supplied(cs, c.fields[i]).value, x, y)
  }

  lemma FirstFieldIsUnique(cs: seq<Composite>, c: Composite, i: nat, j: nat, x: string)
    requires FirstField(cs, c, i, x) && FirstField(cs, c, j, x)
    ensures i == j
  {
    hide LeadsTo;
  }

  /** The rule read at the first field of `x`. */
  lemma SoonerAt(cs: seq<Composite>, c: Composite, i: nat, x: string, y: string)
    requires UniqueNames(cs) && Acyclic(cs) && c in cs && FirstField(cs, c, i, x)
    ensures Sooner(cs, c, x, y) <==> !LedTo(cs, c, i, y) && (!LeadsTo(cs, c.fields[i], y) || SoonerIn(cs, c, i, x, y))
  {
    hide LeadsTo, FirstField, LedTo, SoonerIn, Acyclic;
    assert i < |c.fields| by {
      FieldInRange(cs, c, i, x);
    }
    if Sooner(cs, c, x, y) {
      var k: nat :| k < |c.fields| && FirstField(cs, c, k, x) && !LedTo(cs, c, k, y)
        && (!LeadsTo(cs, c.fields[k], y) || SoonerIn(cs, c, k, x, y));
      FirstFieldIsUnique(cs, c, i, k, x);
    }
  }

  lemma FieldInRange(cs: seq<Composite>, c: Composite, i: nat, x: string)
    requires FirstField(cs, c, i, x)
    ensures i < |c.fields|
  {
  }

  lemma {:induction false} FieldsGrow(cs: seq<Composite>, c: Composite, m: nat, n: nat, ordered: seq<Composite>, path: set<string>)
    requires UniqueNames(cs) && m <= n <= |c.fields|
    ensures VisitedFields(cs, c.fields[..m], ordered, path) <= VisitedFields(cs, c.fields[..n], ordered, path)
    decreases n - m
  {
    hide Visited, ByName, Named;
    if m < n {
      FieldsGrow(cs, c, m, n - 1, ordered, path);
      assert c.fields[..n][..n - 1] == c.fields[..n - 1];
    }
  }

  /** What some of the fields place stays in place when the visit ends. */
  lemma FieldsWithinVisit(cs: seq<Composite>, c: Composite, m: nat, ordered: seq<Composite>, path: set<string>)
    requires UniqueNames(cs) && c in cs && m <= |c.fields| && c.sqlName !in Names(ordered) + path
    ensures VisitedFields(cs, c.fields[..m], ordered, path + {c.sqlName}) <= Visited(cs, c, ordered, path)
  {
    hide VisitedFields, Names;
    VisitedOpens(cs, c, ordered, path);
    FieldsGrow(cs, c, m, |c.fields|, ordered, path + {c.sqlName});
    assert c.fields[..|c.fields|] == c.fields;
  }

  ghost predicate Unrelated(cs: seq<Composite>, x: string, y: string) {
    x != y && x in Names(cs) && y in Names(cs) && !Reaches(cs, x, y) && !Reaches(cs, y, x)
  }

  lemma UnrelatedDiffer(cs: seq<Composite>, x: string, y: string)
    requires Unrelated(cs, x, y)
    ensures x != y
  {
  }

  /** A fresh visit that leads to two unrelated composites, neither of them placed. */
  ghost predicate Pending(cs: seq<Composite>, c: Composite, ordered: seq<Composite>, path: set<string>, x: string, y: string) {
    && UniqueNames(cs) && Acyclic(cs) && c in cs && Settled(cs, ordered) && path !! Below(cs, c.sqlName)
    && Unrelated(cs, x, y) && Reaches(cs, c.sqlName, x) && Reaches(cs, c.sqlName, y)
    && x !in Names(ordered) && y !in Names(ordered)
  }

  lemma PendingIsFresh(cs: seq<Composite>, c: Composite, ordered: seq<Composite>, path: set<string>, x: string, y: string)
    requires Pending(cs, c, ordered, path, x, y)
    ensures c.sqlName !in Names(ordered) + path
    ensures LedTo(cs, c, |c.fields|, x) && LedTo(cs, c, |c.fields|, y)
    ensures x in Names(Visited(cs, c, ordered, path)) && y in Names(Visited(cs, c, ordered, path))
  {
    hide Reaches, FieldDeps, LedTo, Names, Visited, Settled, Acyclic;
    InBelow(cs, c);
    if c.sqlName in Names(ordered) {
      SettledHoldsBelow(cs, ordered, c.sqlName);
    }
    BelowIs(cs, c, x);
    BelowIs(cs, c, y);
    VisitPlacesBelow(cs, c, ordered, path);
  }

  /** Of two pending composites, an earlier field places its own first. */
  lemma EarlierFieldFirst(cs: seq<Composite>, c: Composite, ordered: seq<Composite>, path: set<string>, i: nat, x: string, y: string)
    requires Pending(cs, c, ordered, path, x, y)
    requires FirstField(cs, c, i, x) && i < |c.fields| && !LedTo(cs, c, i + 1, y)
    ensures Before(Visited(cs, c, ordered, path), x, y)
  {
    hide Reaches, FieldDeps, Names, Visited, VisitedFields, Settled, Acyclic, LeadsTo;
    PendingIsFresh(cs, c, ordered, path, x, y);
    FieldsPlaceLedTo(cs, c, i + 1, ordered, path);
    FieldsWithinVisit(cs, c, i + 1, ordered, path);
    LedToGrows(cs, c, i, x);
    PlacedEarlierIsBefore(VisitedFields(cs, c.fields[..i + 1], ordered, path + {c.sqlName}), Visited(cs, c, ordered, path), x, y);
  }

  /** A field that is the first to lead to both passes the question on to what it names. */
  lemma PendingBelow(cs: seq<Composite>, c: Composite, ordered: seq<Composite>, path: set<string>, i: nat, x: string, y: string)
    requires Pending(cs, c, ordered, path, x, y)
    requires FirstField(cs, c, i, x) && FirstField(cs, c, i, y)
    ensures i < |c.fields| && Supplied(cs, c.fields[i]).Some?
    ensures var d := Supplied(cs, c.fields[i]).value;
            var (r, grey) := (VisitedFields(cs, c.fields[..i], ordered, path + {c.sqlName}), path + {c.sqlName});
            && Pending(cs, d, r, grey, x, y)
            && Below(cs, d.sqlName) < Below(cs, c.sqlName)
            && Visited(cs, d, r, grey) <= Visited(cs, c, ordered, path)
  {
    hide Reaches, FieldDeps, Names, Visited, VisitedFields, Settled, Acyclic, Supplied;
    PendingIsFresh(cs, c, ordered, path, x, y);
    FieldsPlaceLedTo(cs, c, i, ordered, path);
    FieldsWithinVisit(cs, c, i + 1, ordered, path);
    NextField(cs, c, i, ordered, path + {c.sqlName});
    SuppliedIs(cs, c, i);
    BelowShrinks(cs, c, i);
  }

  /** The rule decides: `Sooner` says which of two unrelated composites a visit places first. */
  lemma {:induction false} SoonerDecides(cs: seq<Composite>, c: Composite, ordered: seq<Composite>, path: set<string>, x: string, y: string)
    requires Pending(cs, c, ordered, path, x, y)
    ensures Sooner(cs, c, x, y) ==> Before(Visited(cs, c, ordered, path), x, y)
    ensures !Sooner(cs, c, x, y) ==> Before(Visited(cs, c, ordered, path), y, x)
    decreases Below(cs, c.sqlName)
  {
    hide Reaches, Names, Visited, VisitedFields, Sooner, LeadsTo, LedTo, FirstField, Before, Below;
    PendingIsFresh(cs, c, ordered, path, x, y);
    var i := FirstFieldWithin(cs, c, |c.fields|, x);
    var j := FirstFieldWithin(cs, c, |c.fields|, y);
    SoonerAt(cs, c, i, x, y);
    FieldsCompared(cs, c, i, j, x, y);
    if i < j {
      EarlierFieldFirst(cs, c, ordered, path, i, x, y);
    } else if j < i {
      assert Pending(cs, c, ordered, path, y, x);
      EarlierFieldFirst(cs, c, ordered, path, j, y, x);
    } else {
      PendingBelow(cs, c, ordered, path, i, x, y);
      var d := Supplied(cs, c.fields[i]).value;
      var r, grey := VisitedFields(cs, c.fields[..i], ordered, path + {c.sqlName}), path + {c.sqlName};
      SoonerDecides(cs, d, r, grey, x, y);
      var now, all := Visited(cs, d, r, grey), Visited(cs, c, ordered, path);
      if Sooner(cs, d, x, y) {
        BeforeStays(now, all, x, y);
      } else {
        BeforeStays(now, all, y, x);
      }
    }
  }

  lemma FieldsCompared(cs: seq<Composite>, c: Composite, i: nat, j: nat, x: string, y: string)
    requires FirstField(cs, c, i, x) && FirstField(cs, c, j, y)
    ensures i < |c.fields| && j < |c.fields|
    ensures i < j ==> !LedTo(cs, c, i + 1, y) && !LedTo(cs, c, i, y) && !LeadsTo(cs, c.fields[i], y)
    ensures j < i ==> !LedTo(cs, c, j + 1, x) && LedTo(cs, c, i, y)
    ensures i == j ==> !LedTo(cs, c, i, y) && LeadsTo(cs, c.fields[i], y)
  {
    hide LeadsTo;
  }

  // ---------- ties of the whole catalog ----------

  /** After `n` inputs, exactly what they lead to is placed. */
  lemma {:induction false} RootsPlaceReached(cs: seq<Composite>, n: nat)
    requires UniqueNames(cs) && Acyclic(cs) && n <= |cs|
    ensures Settled(cs, VisitedRoots(cs, n))
    ensures forall x :: x in Names(VisitedRoots(cs, n)) <==> x in Names(cs) && ReachedFromPrefix(cs, n, x)
    decreases n
  {
    hide Reaches, FieldDeps, Names, Visited, Settled, Acyclic;
    if n == 0 {
      NothingSettled(cs);
    } else {
      RootsPlaceReached(cs, n - 1);
      VisitPlacesBelow(cs, cs[n - 1], VisitedRoots(cs, n - 1), {});
      NextRoot(cs, n - 1);
      forall x ensures ReachedFromPrefix(cs, n, x) <==> ReachedFromPrefix(cs, n - 1, x) || Reaches(cs, cs[n - 1].sqlName, x) {
      }
    }
  }

  lemma NothingSettled(cs: seq<Composite>)
    ensures Settled(cs, []) && Names([]) == {}
  {
  }

  /** Two unrelated composites with one first root come out as the fields below that root say. */
  lemma OneRootDecides(cs: seq<Composite>, n: nat, x: string, y: string)
    requires UniqueNames(cs) && Acyclic(cs) && Unrelated(cs, x, y)
    requires IsFirstRoot(cs, n, x) && IsFirstRoot(cs, n, y)
    ensures Before(Order(cs), x, y) <==> Sooner(cs, cs[n], x, y)
  {
    hide Reaches, FieldDeps, Names, Visited, VisitedRoots, Settled, Acyclic, Sooner, Before, ReachedFromPrefix;
    RootsPlaceReached(cs, n);
    RootsPlaceReached(cs, |cs|);
    NextRoot(cs, n);
    RootsGrow(cs, n + 1, |cs|);
    var was, now := VisitedRoots(cs, n), VisitedRoots(cs, n + 1);
    SoonerDecides(cs, cs[n], was, {}, x, y);
    SettledIsUnique(cs, Order(cs));
    if Sooner(cs, cs[n], x, y) {
      BeforeStays(now, Order(cs), x, y);
    } else {
      BeforeStays(now, Order(cs), y, x);
      BeforeIsOneWay(Order(cs), y, x);
    }
  }

  lemma SettledIsUnique(cs: seq<Composite>, ordered: seq<Composite>)
    requires Settled(cs, ordered)
    ensures UniqueNames(ordered)
  {
  }

  lemma OrderIsUnique(cs: seq<Composite>)
    requires UniqueNames(cs) && Acyclic(cs)
    ensures UniqueNames(Order(cs))
  {
    hide Settled, Visited, Acyclic;
    RootsPlaceReached(cs, |cs|);
    SettledIsUnique(cs, Order(cs));
  }

  /** With different first roots, the earlier root decides. */
  lemma EarlierRootDecides(cs: seq<Composite>, m: nat, n: nat, x: string, y: string)
    requires UniqueNames(cs) && Acyclic(cs) && x in Names(cs) && y in Names(cs)
    requires IsFirstRoot(cs, m, x) && IsFirstRoot(cs, n, y) && m < n
    ensures Before(Order(cs), x, y) && !Before(Order(cs), y, x)
  {
    hide Reaches, FieldDeps, Names, VisitedRoots, Settled, Acyclic, Before;
    RootsPlaceReached(cs, m + 1);
    RootsPlaceReached(cs, |cs|);
    RootsGrow(cs, m + 1, |cs|);
    assert ReachedFromPrefix(cs, m + 1, x) && ReachedFromPrefix(cs, |cs|, y);
    assert !ReachedFromPrefix(cs, m + 1, y);
    PlacedEarlierIsBefore(VisitedRoots(cs, m + 1), Order(cs), x, y);
    SettledIsUnique(cs, Order(cs));
    BeforeIsOneWay(Order(cs), x, y);
  }

  /** The i-th and j-th inputs are led to by one root sooner-first, or by an earlier root. */
  ghost predicate TieKept(cs: seq<Composite>, x: string, y: string)
    requires UniqueNames(cs) && Acyclic(cs)
  {
    exists m: nat, n: nat :: IsFirstRoot(cs, m, x) && IsFirstRoot(cs, n, y)
      && (m < n || (m == n && Sooner(cs, cs[m], x, y)))
  }

  /** Any two unrelated composites come out in the order the first roots and the fields give. */
  lemma TieDecided(cs: seq<Composite>, i: nat, j: nat)
    requires UniqueNames(cs) && Acyclic(cs) && i < |cs| && j < |cs| && Unrelated(cs, cs[i].sqlName, cs[j].sqlName)
    ensures Before(Order(cs), cs[i].sqlName, cs[j].sqlName) <==> TieKept(cs, cs[i].sqlName, cs[j].sqlName)
  {
    hide Acyclic, Sooner, Before, Order, IsFirstRoot, Unrelated;
    var (x, y) := (cs[i].sqlName, cs[j].sqlName);
    var m := FirstRootExists(cs, i);
    var n := FirstRootExists(cs, j);
    RootsAreOne(cs, m, n, x, y);
    if m < n {
      EarlierRootDecides(cs, m, n, x, y);
    } else if n < m {
      EarlierRootDecides(cs, n, m, y, x);
    } else {
      OneRootDecides(cs, m, x, y);
    }
  }

  lemma RootsAreOne(cs: seq<Composite>, m: nat, n: nat, x: string, y: string)
    requires UniqueNames(cs) && Acyclic(cs) && IsFirstRoot(cs, m, x) && IsFirstRoot(cs, n, y)
    ensures TieKept(cs, x, y) <==> m < n || (m == n && Sooner(cs, cs[m], x, y))
  {
    hide Acyclic, Sooner, Reaches, ReachedFromPrefix;
    if TieKept(cs, x, y) {
      var k: nat, l: nat :| IsFirstRoot(cs, k, x) && IsFirstRoot(cs, l, y) && (k < l || (k == l && Sooner(cs, cs[k], x, y)));
      FirstRootIsUnique(cs, m, k, x);
      FirstRootIsUnique(cs, n, l, y);
    }
  }

  /**
   Every tie keeps its discovery order exactly when, for all unrelated inputs i before j, the first
   root of i is the earlier one, or they have one first root that leads to i sooner.
   */
  lemma AllTiesKeptIff(cs: seq<Composite>)
    requires UniqueNames(cs) && Acyclic(cs)
    ensures (forall i, j :: 0 <= i < j < |cs| && Unrelated(cs, cs[i].sqlName, cs[j].sqlName)
                            ==> Before(Order(cs), cs[i].sqlName, cs[j].sqlName))
            <==> (forall i, j :: 0 <= i < j < |cs| && Unrelated(cs, cs[i].sqlName, cs[j].sqlName)
                                 ==> TieKept(cs, cs[i].sqlName, cs[j].sqlName))
  {
    hide Acyclic, Before, Order, Unrelated, TieKept;
    forall i, j | 0 <= i < j < |cs| && Unrelated(cs, cs[i].sqlName, cs[j].sqlName)
      ensures Before(Order(cs), cs[i].sqlName, cs[j].sqlName) <==> TieKept(cs, cs[i].sqlName, cs[j].sqlName)
    {
      TieDecided(cs, i, j);
    }
  }
}
