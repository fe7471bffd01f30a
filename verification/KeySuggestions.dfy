/**
 "Did you mean" for misspelled keys: the two two-row distance loops, the nearest-key searches
 built on them, and the two rejections that report one offending key.
 */
module KeySuggestions {
  import opened Wrappers
  import Text
  import opened EditScript
  import opened KeyOrder

  // ---------- the distance, computed twice ----------

  lemma FirstRow(b: string)
    ensures forall j :: 0 <= j <= |b| ==> Distance("", b[..j]) == j
  {
  }

  lemma FirstColumn(a: string, i: nat)
    requires i <= |a|
    ensures Distance(a[..i], "") == i
  {
  }

  /** `edit_distance` of the manifest module: two rows, swapped after every character of `a`. */
  method EditDistance(a: string, b: string) returns (d: nat)
    ensures d == Distance(a, b)
    ensures IsLeastCost(d, a, b)
  {
    hide Distance, IsLeastCost;
    var prev := new nat[|b| + 1](j => j);
    FirstRow(b);
    assert a[..0] == "";
    var current := new nat[|b| + 1](_ => 0);
    for i := 0 to |a|
      invariant fresh(prev) && fresh(current) && prev != current && prev.Length == current.Length == |b| + 1
      invariant forall j :: 0 <= j <= |b| ==> prev[j] == Distance(a[..i], b[..j])
    {
      current[0] := i + 1;
      FirstColumn(a, i + 1);
      assert b[..0] == "";
      for j := 0 to |b|
        invariant forall k :: 0 <= k <= |b| ==> prev[k] == Distance(a[..i], b[..k])
        invariant forall k :: 0 <= k <= j ==> current[k] == Distance(a[..i + 1], b[..k])
      {
        var substitutionCost := if a[i] != b[j] then 1 else 0;
        Cell(a, b, i, j);
        current[j + 1] := Min(Min(prev[j] + substitutionCost, prev[j + 1] + 1), current[j] + 1);
      }
      prev, current := current, prev;
    }
    d := prev[|b|];
    assert a[..|a|] == a && b[..|b|] == b;
    DistanceIsLeastCost(a, b);
  }

  /** `levenshtein_distance` of the options module, which takes its minimum in another order. */
  method LevenshteinDistance(a: string, b: string) returns (d: nat)
    ensures d == Distance(a, b)
    ensures IsLeastCost(d, a, b)
  {
    hide Distance, IsLeastCost;
    var prevRow := new nat[|b| + 1](j => j);
    FirstRow(b);
    assert a[..0] == "";
    var currRow := new nat[|b| + 1](_ => 0);
    for i := 0 to |a|
      invariant fresh(prevRow) && fresh(currRow) && prevRow != currRow && prevRow.Length == currRow.Length == |b| + 1
      invariant forall j :: 0 <= j <= |b| ==> prevRow[j] == Distance(a[..i], b[..j])
    {
      currRow[0] := i + 1;
      FirstColumn(a, i + 1);
      assert b[..0] == "";
      for j := 0 to |b|
        invariant forall k :: 0 <= k <= |b| ==> prevRow[k] == Distance(a[..i], b[..k])
        invariant forall k :: 0 <= k <= j ==> currRow[k] == Distance(a[..i + 1], b[..k])
      {
        var substitutionCost := if a[i] != b[j] then 1 else 0;
        Cell(a, b, i, j);
        currRow[j + 1] := Min(Min(prevRow[j + 1] + 1, currRow[j] + 1), prevRow[j] + substitutionCost);
      }
      prevRow, currRow := currRow, prevRow;
    }
    d := prevRow[|b|];
    assert a[..|a|] == a && b[..|b|] == b;
    DistanceIsLeastCost(a, b);
  }

  /** Both loops are a metric, and they are the same one. */
  lemma LoopsAreOneMetric(a: string, b: string, c: string, d: nat, e: nat)
    requires IsLeastCost(d, a, b) && IsLeastCost(e, a, b)
    ensures d == e == Distance(a, b)
    ensures d == 0 <==> a == b
    ensures IsLeastCost(d, b, a)
    ensures Distance(a, c) <= d + Distance(b, c)
    ensures |a| - |b| <= d && |b| - |a| <= d && d <= Max(|a|, |b|)
  {
    DistanceIsLeastCost(a, b);
    ZeroIffEqual(a, b);
    Symmetric(a, b);
    DistanceIsLeastCost(b, a);
    TriangleInequality(a, b, c);
    LengthBounds(a, b);
  }

  // ---------- the nearest candidate ----------

  /** Rust's `len()` counts bytes, so the threshold does too. */
  function Threshold(key: string): nat {
    if |Text.Utf8(key)| <= 4 then 1 else 2
  }

  /** The first nearest candidate among those within `threshold`. */
  function Nearest(threshold: nat, key: string, candidates: seq<string>): Option<string> {
    if candidates == [] then None
    else
      var head := candidates[0];
      var rest := Nearest(threshold, key, candidates[1..]);
      if Distance(key, head) > threshold || (rest.Some? && Distance(key, rest.value) < Distance(key, head))
      then rest else Some(head)
  }

  /** Nothing is suggested exactly when nothing is near; otherwise the first of the nearest is. */
  lemma {:induction false} NearestIsFirstNearest(threshold: nat, key: string, candidates: seq<string>)
    ensures var r := Nearest(threshold, key, candidates);
            && (r.None? <==> forall i :: 0 <= i < |candidates| ==> Distance(key, candidates[i]) > threshold)
            && (r.Some? ==> IsFirstNearest(threshold, key, candidates, r.value))
    decreases |candidates|
  {
    hide Distance;
    if candidates != [] {
      var tail := candidates[1..];
      NearestIsFirstNearest(threshold, key, tail);
      assert forall i :: 0 < i < |candidates| ==> candidates[i] == tail[i - 1];
      var (r, rest) := (Nearest(threshold, key, candidates), Nearest(threshold, key, tail));
      if rest.Some? {
        var i :| 0 <= i < |tail| && tail[i] == rest.value && FirstNearestAt(threshold, key, tail, i);
        assert candidates[i + 1] == rest.value;
        if r == Some(candidates[0]) {
          assert FirstNearestAt(threshold, key, candidates, 0);
        } else {
          assert FirstNearestAt(threshold, key, candidates, i + 1);
        }
      } else if r.Some? {
        assert FirstNearestAt(threshold, key, candidates, 0);
      }
    }
  }

  ghost predicate FirstNearestAt(threshold: nat, key: string, candidates: seq<string>, i: nat)
    requires i < |candidates|
  {
    && Distance(key, candidates[i]) <= threshold
    && (forall j :: 0 <= j < |candidates| ==> Distance(key, candidates[i]) <= Distance(key, candidates[j]))
    && (forall j :: 0 <= j < i ==> Distance(key, candidates[i]) < Distance(key, candidates[j]))
  }

  ghost predicate IsFirstNearest(threshold: nat, key: string, candidates: seq<string>, found: string) {
    exists i :: 0 <= i < |candidates| && candidates[i] == found && FirstNearestAt(threshold, key, candidates, i)
  }

  /** A suggestion is a real near miss: a candidate at distance 1 up to the threshold. */
  lemma SuggestionIsNearMiss(threshold: nat, key: string, candidates: seq<string>)
    requires key !in candidates
    ensures var r := Nearest(threshold, key, candidates);
            r.Some? ==> r.value in candidates && 1 <= Distance(key, r.value) <= threshold
                        && forall c :: c in candidates ==> Distance(key, r.value) <= Distance(key, c)
  {
    hide Distance;
    NearestIsFirstNearest(threshold, key, candidates);
    var r := Nearest(threshold, key, candidates);
    if r.Some? {
      ZeroIffEqual(key, r.value);
    }
  }

  /**
   Two candidates can only both be suggested-worthy for one key when they are close to each other:
   the triangle inequality bounds how far apart they lie.
   */
  lemma RivalSuggestionsAreClose(threshold: nat, key: string, c: string, c': string)
    requires Distance(key, c) <= threshold && Distance(key, c') <= threshold
    ensures Distance(c, c') <= 2 * threshold
  {
    TriangleInequality(c, key, c');
    Symmetric(key, c);
  }

  // ---------- candidates in no particular order ----------

  /** `xs` lists the keys of a map, each once, in some order. */
  ghost predicate Lists(xs: seq<string>, keys: set<string>) {
    |xs| == |keys| && forall k :: k in xs <==> k in keys
  }

  lemma {:induction false} SomeListing(keys: set<string>) returns (xs: seq<string>)
    ensures Lists(xs, keys)
    decreases |keys|
  {
    if keys == {} {
      xs := [];
    } else {
      var k :| k in keys;
      var rest := SomeListing(keys - {k});
      xs := [k] + rest;
    }
  }

  /** Two different keys at the nearest distance, within the threshold. */
  ghost predicate Tied(threshold: nat, key: string, keys: set<string>, c: string, d: string) {
    && c in keys && d in keys && c != d
    && Distance(key, c) == Distance(key, d) <= threshold
    && forall e :: e in keys ==> Distance(key, c) <= Distance(key, e)
  }

  /** A nearest key listed first is the suggestion. */
  lemma FirstIsSuggested(threshold: nat, key: string, c: string, others: seq<string>)
    requires Distance(key, c) <= threshold
    requires forall e :: e in others ==> Distance(key, c) <= Distance(key, e)
    ensures Nearest(threshold, key, [c] + others) == Some(c)
  {
    hide Distance;
    var xs := [c] + others;
    assert xs[1..] == others;
    NearestIsFirstNearest(threshold, key, others);
  }

  /** Of two tied keys, each is the suggestion for some order. */
  lemma TieGoesEitherWay(threshold: nat, key: string, keys: set<string>, c: string, d: string) returns (xs: seq<string>)
    requires Tied(threshold, key, keys, c, d)
    ensures Lists(xs, keys) && Nearest(threshold, key, xs) == Some(c)
  {
    hide Distance;
    var others := SomeListing(keys - {c});
    xs := [c] + others;
    FirstIsSuggested(threshold, key, c, others);
  }

  lemma SuggestedIsNearest(threshold: nat, key: string, keys: set<string>, xs: seq<string>)
    requires Lists(xs, keys)
    ensures var r := Nearest(threshold, key, xs);
            && (r.None? <==> forall e :: e in keys ==> Distance(key, e) > threshold)
            && (r.Some? ==> r.value in keys && Distance(key, r.value) <= threshold
                            && forall e :: e in keys ==> Distance(key, r.value) <= Distance(key, e))
  {
    hide Distance, Nearest;
    NearestIsFirstNearest(threshold, key, xs);
    assert forall e :: e in keys ==> e in xs;
  }

  /**
   A suggestion does not depend on the order a hash map yields its keys in, exactly when at most
   one key is at the nearest distance within the threshold.
   */
  lemma SuggestionIsStableIff(threshold: nat, key: string, keys: set<string>)
    ensures (forall xs, ys :: Lists(xs, keys) && Lists(ys, keys) ==> Nearest(threshold, key, xs) == Nearest(threshold, key, ys))
            <==> !exists c, d :: Tied(threshold, key, keys, c, d)
  {
    hide Distance, Nearest;
    if c, d :| Tied(threshold, key, keys, c, d) {
      var xs := TieGoesEitherWay(threshold, key, keys, c, d);
      var ys := TieGoesEitherWay(threshold, key, keys, d, c);
      assert Nearest(threshold, key, xs) != Nearest(threshold, key, ys);
    } else {
      forall xs, ys | Lists(xs, keys) && Lists(ys, keys) ensures Nearest(threshold, key, xs) == Nearest(threshold, key, ys) {
        SameUnlessTied(threshold, key, keys, xs, ys);
      }
    }
  }

  lemma SameUnlessTied(threshold: nat, key: string, keys: set<string>, xs: seq<string>, ys: seq<string>)
    requires Lists(xs, keys) && Lists(ys, keys)
    ensures Nearest(threshold, key, xs) == Nearest(threshold, key, ys) || exists c, d :: Tied(threshold, key, keys, c, d)
  {
    hide Distance, Nearest;
    SuggestedIsNearest(threshold, key, keys, xs);
    SuggestedIsNearest(threshold, key, keys, ys);
    var r, q := Nearest(threshold, key, xs), Nearest(threshold, key, ys);
    if r != q {
      assert Tied(threshold, key, keys, r.value, q.value);
    }
  }

  // ---------- rejecting unknown keys ----------

  datatype KeyError = UnknownKey(section: string, key: string, suggestion: Option<string>)

  /** What either rejection reports: the smallest unknown key and its nearest known one. */
  ghost predicate Reports(e: KeyError, keys: set<string>, known: seq<string>, threshold: nat) {
    && e.key in keys && e.key !in known
    && (forall k :: k in keys && k !in known ==> Le(e.key, k))
    && e.suggestion == Nearest(threshold, e.key, known)
  }

  /** Which key is reported, and with what suggestion, leaves no choice. */
  lemma ReportIsDetermined(e: KeyError, f: KeyError, keys: set<string>, known: seq<string>)
    requires Reports(e, keys, known, Threshold(e.key)) && Reports(f, keys, known, Threshold(f.key))
    ensures e.key == f.key && e.suggestion == f.suggestion
  {
    LeAntisymmetric(e.key, f.key);
  }

  /** `reject_unknown_keys`: filter, sort, take the first. */
  method RejectUnknownKeys(overlay: map<string, string>, vocabulary: seq<string>, section: string)
    returns (r: Result<(), KeyError>)
    ensures r.Ok? <==> forall k :: k in overlay ==> k in vocabulary
    ensures r.Err? ==> r.error.section == section
    ensures r.Err? ==> Reports(r.error, overlay.Keys, vocabulary, if |Text.Utf8(r.error.key)| <= 4 then 1 else 2)
  {
    var keys := Enumerate(overlay.Keys);
    var unknown: seq<string> := [];
    for i := 0 to |keys|
      invariant forall k :: k in unknown <==> k in keys[..i] && k !in vocabulary
    {
      if keys[i] !in vocabulary {
        unknown := unknown + [keys[i]];
      }
    }
    assert keys[..|keys|] == keys;
    FirstOfSorted(unknown);
    unknown := SortByKey(Itself, unknown);
    if unknown == [] {
      assert forall k :: k in overlay ==> k in keys;
      return Ok(());
    }
    var key := unknown[0];
    assert key in unknown;
    assert forall k :: k in overlay.Keys && k !in vocabulary ==> k in keys;
    return Err(UnknownKey(section, key, Nearest(Threshold(key), key, vocabulary)));
  }

  /** `reject_unknown_options`: sort all keys, stop at the first unknown one. */
  method RejectUnknownOptions(known: seq<string>, options: map<string, string>) returns (r: Result<(), KeyError>)
    ensures r.Ok? <==> forall k :: k in options ==> k in known
    ensures r.Err? ==> Reports(r.error, options.Keys, known, 2)
  {
    hide SortByKey, SortedBy, DistinctKeys, Nearest;
    var listed := Enumerate(options.Keys);
    SortedResult(Itself, listed);
    var keys := SortByKey(Itself, listed);
    MultisetMembers(keys, listed);
    for i := 0 to |keys|
      invariant forall j :: 0 <= j < i ==> keys[j] in known
    {
      if keys[i] !in known {
        FirstUnknown(keys, known, i);
        assert forall k :: k in options.Keys ==> k in keys;
        return Err(UnknownKey("options", keys[i], Nearest(2, keys[i], known)));
      }
    }
    assert forall k :: k in options ==> k in keys;
    return Ok(());
  }

  /** In a sorted list, the first unknown key is the smallest. */
  lemma FirstUnknown(keys: seq<string>, known: seq<string>, i: nat)
    requires SortedBy(Itself, keys) && i < |keys| && forall j :: 0 <= j < i ==> keys[j] in known
    ensures keys[i] in keys && forall k :: k in keys && k !in known ==> Le(keys[i], k)
  {
    hide Le;
    LeTotal(keys[i], keys[i]);
    forall k | k in keys && k !in known ensures Le(keys[i], k) {
      var j :| 0 <= j < |keys| && keys[j] == k;
      assert i < j ==> Le(Itself(keys[i]), Itself(keys[j]));
    }
  }

}
