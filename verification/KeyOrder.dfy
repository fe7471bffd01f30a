/**
 The order Rust sorts strings by, and sorting by key.

 `String` compares its UTF-8 bytes; on well-formed text that is the order of the code points,
 which is how it is written here;
 `ByteOrder` proves the two the same.
 */
module KeyOrder {
  predicate Le(a: string, b: string) {
    if a == "" then true
    else if b == "" then false
    else if a[0] != b[0] then a[0] < b[0]
    else Le(a[1..], b[1..])
  }

  lemma LeTotal(a: string, b: string)
    ensures Le(a, b) || Le(b, a)
  {
  }

  lemma LeAntisymmetric(a: string, b: string)
    requires Le(a, b) && Le(b, a)
    ensures a == b
  {
    if a != "" && b != "" {
      LeAntisymmetric(a[1..], b[1..]);
      assert a == [a[0]] + a[1..] && b == [b[0]] + b[1..];
    }
  }

  lemma LeTransitive(a: string, b: string, c: string)
    requires Le(a, b) && Le(b, c)
    ensures Le(a, c)
  {
    if a != "" && b != "" && c != "" && a[0] == b[0] == c[0] {
      LeTransitive(a[1..], b[1..], c[1..]);
    }
  }

  ghost predicate SortedBy<T>(key: T -> string, xs: seq<T>) {
    forall i, j :: 0 <= i < j < |xs| ==> Le(key(xs[i]), key(xs[j]))
  }

  ghost predicate DistinctKeys<T>(key: T -> string, xs: seq<T>) {
    forall i, j :: 0 <= i < j < |xs| ==> key(xs[i]) != key(xs[j])
  }

  function InsertByKey<T>(key: T -> string, x: T, xs: seq<T>): seq<T> {
    if xs == [] || Le(key(x), key(xs[0])) then [x] + xs
    else [xs[0]] + InsertByKey(key, x, xs[1..])
  }

  /** `sort_unstable_by_key`, for keys that are all different. */
  function SortByKey<T>(key: T -> string, xs: seq<T>): seq<T> {
    if xs == [] then [] else InsertByKey(key, xs[0], SortByKey(key, xs[1..]))
  }

  lemma {:induction false} InsertedIsSorted<T>(key: T -> string, x: T, xs: seq<T>)
    requires SortedBy(key, xs)
    ensures SortedBy(key, InsertByKey(key, x, xs))
    ensures multiset(InsertByKey(key, x, xs)) == multiset([x]) + multiset(xs)
  {
    var r := InsertByKey(key, x, xs);
    if xs == [] {
    } else if Le(key(x), key(xs[0])) {
      forall i, j | 0 <= i < j < |r| ensures Le(key(r[i]), key(r[j])) {
        if i == 0 && j > 1 {
          LeTransitive(key(x), key(xs[0]), key(xs[j - 1]));
        }
      }
    } else {
      var tail := InsertByKey(key, x, xs[1..]);
      InsertedIsSorted(key, x, xs[1..]);
      LeTotal(key(x), key(xs[0]));
      forall j | 0 <= j < |tail| ensures Le(key(xs[0]), key(tail[j])) {
        assert tail[j] in multiset(tail);
        assert tail[j] == x || tail[j] in xs[1..];
      }
      assert xs == [xs[0]] + xs[1..];
    }
  }

  lemma {:induction false} SortedResult<T>(key: T -> string, xs: seq<T>)
    ensures SortedBy(key, SortByKey(key, xs))
    ensures multiset(SortByKey(key, xs)) == multiset(xs)
  {
    if xs != [] {
      SortedResult(key, xs[1..]);
      InsertedIsSorted(key, xs[0], SortByKey(key, xs[1..]));
      assert xs == [xs[0]] + xs[1..];
    }
  }

  lemma MultisetMembers<T>(xs: seq<T>, ys: seq<T>)
    requires multiset(xs) == multiset(ys)
    ensures |xs| == |ys|
    ensures forall x :: x in xs <==> x in ys
  {
    assert |multiset(xs)| == |multiset(ys)|;
    forall x ensures x in xs <==> x in ys {
      assert x in multiset(xs) <==> x in multiset(ys);
    }
  }

  lemma HeadIsLeast<T>(key: T -> string, xs: seq<T>, x: T)
    requires SortedBy(key, xs) && x in xs
    ensures Le(key(xs[0]), key(x))
  {
    LeTotal(key(x), key(x));
  }

  lemma DropHead<T>(xs: seq<T>, ys: seq<T>)
    requires multiset(xs) == multiset(ys) && xs != [] && ys != [] && xs[0] == ys[0]
    ensures multiset(xs[1..]) == multiset(ys[1..])
    ensures xs[1..] == ys[1..] ==> xs == ys
  {
    assert xs == [xs[0]] + xs[1..] && ys == [ys[0]] + ys[1..];
    assert multiset(xs[1..]) == multiset(xs) - multiset{xs[0]};
    assert multiset(ys[1..]) == multiset(ys) - multiset{ys[0]};
  }

  /** With distinct keys, sorting leaves no choice: one sorted arrangement exists. */
  lemma {:induction false} SortedIsUnique<T>(key: T -> string, xs: seq<T>, ys: seq<T>)
    requires SortedBy(key, xs) && SortedBy(key, ys) && DistinctKeys(key, xs)
    requires multiset(xs) == multiset(ys)
    ensures xs == ys
    decreases |xs|
  {
    MultisetMembers(xs, ys);
    if xs != [] {
      var x, y := xs[0], ys[0];
      assert x in ys && y in xs;
      HeadIsLeast(key, xs, y);
      HeadIsLeast(key, ys, x);
      LeAntisymmetric(key(x), key(y));
      assert x == y;
      DropHead(xs, ys);
      SortedIsUnique(key, xs[1..], ys[1..]);
    }
  }

  /** Hence the order a hash map happened to yield its entries in does not survive the sort. */
  lemma SortForgetsInputOrder<T>(key: T -> string, xs: seq<T>, ys: seq<T>)
    requires multiset(xs) == multiset(ys) && DistinctKeys(key, xs)
    ensures SortByKey(key, xs) == SortByKey(key, ys)
  {
    SortedResult(key, xs);
    SortedResult(key, ys);
    DistinctKeysOfPermutation(key, xs, SortByKey(key, xs));
    SortedIsUnique(key, SortByKey(key, xs), SortByKey(key, ys));
  }

  lemma DistinctKeysOfPermutation<T>(key: T -> string, xs: seq<T>, ys: seq<T>)
    requires multiset(xs) == multiset(ys) && DistinctKeys(key, xs)
    ensures DistinctKeys(key, ys)
  {
    MultisetMembers(xs, ys);
    forall i, j | 0 <= i < j < |ys| ensures key(ys[i]) != key(ys[j]) {
      if key(ys[i]) == key(ys[j]) {
        assert ys[i] in ys && ys[j] in ys;
        var p :| 0 <= p < |xs| && xs[p] == ys[i];
        var q :| 0 <= q < |xs| && xs[q] == ys[j];
        assert p == q;
        CountsOnce(xs, p, key);
        CountsTwice(ys, i, j);
        assert false;
      }
    }
  }

  lemma CountsOnce<T>(xs: seq<T>, p: nat, key: T -> string)
    requires p < |xs| && DistinctKeys(key, xs)
    ensures multiset(xs)[xs[p]] == 1
  {
    assert xs == xs[..p] + [xs[p]] + xs[p + 1..];
    assert xs[p] !in xs[..p] && xs[p] !in xs[p + 1..];
  }

  lemma CountsTwice<T>(xs: seq<T>, i: nat, j: nat)
    requires i < j < |xs| && xs[i] == xs[j]
    ensures multiset(xs)[xs[i]] >= 2
  {
    assert xs == xs[..i] + [xs[i]] + xs[i + 1..j] + [xs[j]] + xs[j + 1..];
  }

  function Itself(k: string): string { k }

  /** The keys of a hash map in some order: which one is not fixed. */
  method Enumerate(keys: set<string>) returns (ks: seq<string>)
    ensures forall k :: k in ks <==> k in keys
    ensures DistinctKeys(Itself, ks)
  {
    ks := [];
    var left := keys;
    while left != {}
      invariant left <= keys
      invariant forall k :: k in ks <==> k in keys && k !in left
      invariant DistinctKeys(Itself, ks)
      decreases left
    {
      var k :| k in left;
      ks := ks + [k];
      left := left - {k};
    }
  }

  /** Sorting any enumeration of a key set puts a smallest key first. */
  lemma FirstOfSorted(ks: seq<string>)
    ensures var s := SortByKey(Itself, ks);
            && |s| == |ks| && (forall k :: k in s <==> k in ks)
            && (s != [] ==> forall k :: k in ks ==> Le(s[0], k))
  {
    var s := SortByKey(Itself, ks);
    SortedResult(Itself, ks);
    MultisetMembers(s, ks);
    if s != [] {
      LeTotal(s[0], s[0]);
      forall k | k in ks ensures Le(s[0], k) {
        var i :| 0 <= i < |s| && s[i] == k;
        assert i > 0 ==> Le(Itself(s[0]), Itself(s[i]));
      }
    }
  }
}
