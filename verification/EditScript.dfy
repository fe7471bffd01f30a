/**
 What an edit distance means: the least number of single-character insertions, deletions and
 substitutions in any script that turns one text into another. `Distance` is the usual
 recurrence; the theorems below tie it to scripts and derive the metric laws from them.
 */
module EditScript {
  datatype Edit =
    | Keep(c: char)
    | Substitute(from: char, to: char)
    | Insert(c: char)
    | Delete(c: char)

  type Script = seq<Edit>

  /** The text a script consumes. */
  function Source(script: Script): string {
    if script == [] then ""
    else
      var last := script[|script| - 1];
      var rest := Source(script[..|script| - 1]);
      match last
      case Keep(c) => rest + [c]
      case Substitute(x, _) => rest + [x]
      case Insert(_) => rest
      case Delete(c) => rest + [c]
  }

  /** The text a script produces. */
  function Target(script: Script): string {
    if script == [] then ""
    else
      var last := script[|script| - 1];
      var rest := Target(script[..|script| - 1]);
      match last
      case Keep(c) => rest + [c]
      case Substitute(_, y) => rest + [y]
      case Insert(c) => rest + [c]
      case Delete(_) => rest
  }

  function Cost(script: Script): nat {
    if script == [] then 0
    else Cost(script[..|script| - 1]) + (if script[|script| - 1].Keep? then 0 else 1)
  }

  ghost predicate Turns(script: Script, a: string, b: string) {
    Source(script) == a && Target(script) == b
  }

  function Min(x: int, y: int): int {
    if x <= y then x else y
  }

  function Max(x: int, y: int): int {
    if x <= y then y else x
  }

  function Init<T>(s: seq<T>): seq<T>
    requires s != []
  {
    s[..|s| - 1]
  }

  function Last<T>(s: seq<T>): T
    requires s != []
  {
    s[|s| - 1]
  }

  function Distance(a: string, b: string): nat
    decreases |a| + |b|
  {
    if a == "" then |b|
    else if b == "" then |a|
    else
      Min(Distance(Init(a), Init(b)) + (if Last(a) != Last(b) then 1 else 0),
          Min(Distance(Init(a), b) + 1, Distance(a, Init(b)) + 1))
  }

  /** One more edit at the end of a script. */
  lemma {:induction false} Extend(script: Script, e: Edit)
    ensures Source(script + [e]) == Source(script) + (if e.Insert? then "" else [if e.Substitute? then e.from else e.c])
    ensures Target(script + [e]) == Target(script) + (if e.Delete? then "" else [if e.Substitute? then e.to else e.c])
    ensures Cost(script + [e]) == Cost(script) + (if e.Keep? then 0 else 1)
  {
    assert (script + [e])[..|script + [e]| - 1] == script;
  }

  lemma ExtendTurns(script: Script, e: Edit, a: string, b: string, d: nat)
    requires Turns(script, if e.Insert? then a else if a == "" then a else Init(a),
                           if e.Delete? then b else if b == "" then b else Init(b))
    requires !e.Insert? ==> a != "" && Last(a) == (if e.Substitute? then e.from else e.c)
    requires !e.Delete? ==> b != "" && Last(b) == (if e.Substitute? then e.to else e.c)
    requires d == Cost(script) + (if e.Keep? then 0 else 1)
    ensures Turns(script + [e], a, b) && Cost(script + [e]) == d
  {
    Extend(script, e);
    assert a != "" ==> a == Init(a) + [Last(a)];
    assert b != "" ==> b == Init(b) + [Last(b)];
  }

  /** The distance is achieved: this script turns `a` into `b` at that cost. */
  lemma {:induction false} BestScript(a: string, b: string) returns (script: Script)
    ensures Turns(script, a, b) && Cost(script) == Distance(a, b)
    decreases |a| + |b|
  {
    var d := Distance(a, b);
    if a == "" && b == "" {
      script := [];
    } else if a != "" && (b == "" || d == Distance(Init(a), b) + 1) {
      script := BestScript(Init(a), b);
      ExtendTurns(script, Delete(Last(a)), a, b, d);
      script := script + [Delete(Last(a))];
    } else if b != "" && (a == "" || d == Distance(a, Init(b)) + 1) {
      script := BestScript(a, Init(b));
      ExtendTurns(script, Insert(Last(b)), a, b, d);
      script := script + [Insert(Last(b))];
    } else {
      script := BestScript(Init(a), Init(b));
      var e := if Last(a) == Last(b) then Keep(Last(a)) else Substitute(Last(a), Last(b));
      ExtendTurns(script, e, a, b, d);
      script := script + [e];
    }
  }

  /** One more character on either side moves the distance by at most one. */
  lemma {:induction false} StepBound(a: string, b: string)
    ensures a != "" ==> Distance(a, b) <= Distance(Init(a), b) + 1
    ensures b != "" ==> Distance(a, b) <= Distance(a, Init(b)) + 1
  {
  }

  /** The distance is minimal: no script that turns one text into another costs less. */
  lemma {:induction false} NoCheaperScript(script: Script)
    ensures Distance(Source(script), Target(script)) <= Cost(script)
    decreases |script|
  {
    if script != [] {
      NoCheaperScript(Init(script));
      var a, b := Source(script), Target(script);
      StepBound(a, b);
      match Last(script)
      case Keep(c) => assert Init(a) == Source(Init(script)) && Init(b) == Target(Init(script));
      case Substitute(_, _) => assert Init(a) == Source(Init(script)) && Init(b) == Target(Init(script));
      case Insert(_) => assert Init(b) == Target(Init(script));
      case Delete(_) => assert Init(a) == Source(Init(script));
    }
  }

  /** `d` is the least cost of a script turning `a` into `b`. */
  ghost predicate IsLeastCost(d: nat, a: string, b: string) {
    && (exists script :: Turns(script, a, b) && Cost(script) == d)
    && (forall script :: Turns(script, a, b) ==> d <= Cost(script))
  }

  lemma DistanceIsLeastCost(a: string, b: string)
    ensures IsLeastCost(Distance(a, b), a, b)
  {
    var best := BestScript(a, b);
    forall script | Turns(script, a, b) ensures Distance(a, b) <= Cost(script) {
      NoCheaperScript(script);
    }
  }

  // ---------- metric laws ----------

  /** The script that undoes another one. */
  function Inverse(script: Script): Script {
    if script == [] then []
    else
      Inverse(script[..|script| - 1]) +
      [match script[|script| - 1]
       case Keep(c) => Keep(c)
       case Substitute(x, y) => Substitute(y, x)
       case Insert(c) => Delete(c)
       case Delete(c) => Insert(c)]
  }

  lemma {:induction false} InverseUndoes(script: Script)
    ensures Turns(Inverse(script), Target(script), Source(script))
    ensures Cost(Inverse(script)) == Cost(script)
    decreases |script|
  {
    if script != [] {
      var rest := Init(script);
      InverseUndoes(rest);
      Extend(Inverse(rest), Last(Inverse(script)));
    }
  }

  /** Two scripts that meet in the middle fuse into one that costs no more than both. */
  lemma {:induction false} Fuse(s: Script, t: Script) returns (r: Script)
    requires Target(s) == Source(t)
    ensures Turns(r, Source(s), Target(t)) && Cost(r) <= Cost(s) + Cost(t)
    decreases |s| + |t|
  {
    if s != [] && Last(s).Delete? {
      var q := Fuse(Init(s), t);
      Extend(q, Last(s));
      r := q + [Last(s)];
    } else if t != [] && Last(t).Insert? {
      var q := Fuse(s, Init(t));
      Extend(q, Last(t));
      r := q + [Last(t)];
    } else if s == [] || t == [] {
      r := [];
    } else {
      assert Init(Target(s)) == Target(Init(s)) && Init(Source(t)) == Source(Init(t));
      var q := Fuse(Init(s), Init(t));
      var e, f := Last(s), Last(t);
      assert Last(Target(s)) == (if e.Substitute? then e.to else e.c);
      assert Last(Source(t)) == (if f.Substitute? then f.from else f.c);
      if e.Insert? && f.Delete? {
        r := q;
      } else {
        var g :=
          if e.Insert? then Insert(if f.Keep? then f.c else f.to)
          else
            var x := if e.Keep? then e.c else e.from;
            if f.Delete? then Delete(x)
            else
              var z := if f.Keep? then f.c else f.to;
              if x == z then Keep(x) else Substitute(x, z);
        Extend(q, g);
        r := q + [g];
      }
    }
  }

  lemma {:induction false} ZeroIffEqual(a: string, b: string)
    ensures Distance(a, b) == 0 <==> a == b
    decreases |a| + |b|
  {
    if a != "" && b != "" {
      ZeroIffEqual(Init(a), Init(b));
      assert a == Init(a) + [Last(a)] && b == Init(b) + [Last(b)];
    }
  }

  lemma {:induction false} Symmetric(a: string, b: string)
    ensures Distance(a, b) == Distance(b, a)
  {
    var there := BestScript(a, b);
    var back := BestScript(b, a);
    InverseUndoes(there);
    InverseUndoes(back);
    NoCheaperScript(Inverse(there));
    NoCheaperScript(Inverse(back));
  }

  lemma {:induction false} TriangleInequality(a: string, b: string, c: string)
    ensures Distance(a, c) <= Distance(a, b) + Distance(b, c)
  {
    var s := BestScript(a, b);
    var t := BestScript(b, c);
    var r := Fuse(s, t);
    NoCheaperScript(r);
  }

  lemma {:induction false} LengthBounds(a: string, b: string)
    ensures Distance(a, b) <= Max(|a|, |b|)
    ensures |a| - |b| <= Distance(a, b) && |b| - |a| <= Distance(a, b)
    decreases |a| + |b|
  {
    if a != "" && b != "" {
      LengthBounds(Init(a), Init(b));
      LengthBounds(Init(a), b);
      LengthBounds(a, Init(b));
    }
  }

  /** The table recurrence on prefixes, as the row-by-row loops use it. */
  lemma {:induction false} Cell(a: string, b: string, i: nat, j: nat)
    requires i < |a| && j < |b|
    ensures Distance(a[..i + 1], b[..j + 1])
         == Min(Distance(a[..i], b[..j]) + (if a[i] != b[j] then 1 else 0),
                Min(Distance(a[..i], b[..j + 1]) + 1, Distance(a[..i + 1], b[..j]) + 1))
  {
    hide Distance;
    var (x, y) := (a[..i + 1], b[..j + 1]);
    assert Init(x) == a[..i] && Init(y) == b[..j] && Last(x) == a[i] && Last(y) == b[j];
    DistanceStep(x, y);
  }

  lemma {:induction false} DistanceStep(x: string, y: string)
    requires x != "" && y != ""
    ensures Distance(x, y)
         == Min(Distance(Init(x), Init(y)) + (if Last(x) != Last(y) then 1 else 0),
                Min(Distance(Init(x), y) + 1, Distance(x, Init(y)) + 1))
  {
  }
}
