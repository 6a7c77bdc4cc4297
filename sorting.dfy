/** Python's `sorted` on strings: ascending code-point lexicographic order,
    stable, as a functional insertion sort by a string key. */
module Sorting {
  import Common

  /** `a <= b` for Python strings: compare code points, a proper prefix first. */
  predicate LexLe(a: string, b: string)
    decreases |a|
  {
    a == [] || (b != [] && (a[0] < b[0] || (a[0] == b[0] && LexLe(a[1..], b[1..]))))
  }

  lemma {:induction false} LexLeTotal(a: string, b: string)
    decreases |a|
    ensures LexLe(a, b) || LexLe(b, a)
  {
    if a != [] && b != [] && a[0] == b[0] {
      LexLeTotal(a[1..], b[1..]);
    }
  }

  lemma {:induction false} LexLeTransitive(a: string, b: string, c: string)
    requires LexLe(a, b) && LexLe(b, c)
    decreases |a|
    ensures LexLe(a, c)
  {
    if a != [] && a[0] == b[0] && b[0] == c[0] {
      LexLeTransitive(a[1..], b[1..], c[1..]);
    }
  }

  lemma {:induction false} LexLeAntisymmetric(a: string, b: string)
    requires LexLe(a, b) && LexLe(b, a)
    decreases |a|
    ensures a == b
  {
    if a != [] {
      LexLeAntisymmetric(a[1..], b[1..]);
      assert a == [a[0]] + a[1..] && b == [b[0]] + b[1..];
    }
  }

  ghost predicate SortedBy<T>(xs: seq<T>, key: T -> string)
  {
    forall i, j :: 0 <= i < j < |xs| ==> LexLe(key(xs[i]), key(xs[j]))
  }

  /** Put `x` before the first element whose key is greater than its own. */
  function Insert<T>(x: T, xs: seq<T>, key: T -> string): (r: seq<T>)
    ensures multiset(r) == multiset(xs) + multiset{x}
    ensures |r| == |xs| + 1
    ensures forall i :: 0 <= i < |r| ==> r[i] == x || r[i] in xs
  {
    if xs == [] then [x]
    else if LexLe(key(x), key(xs[0])) then [x] + xs
    else
      assert xs == [xs[0]] + xs[1..];
      [xs[0]] + Insert(x, xs[1..], key)
  }

  function SortBy<T>(xs: seq<T>, key: T -> string): (r: seq<T>)
    ensures multiset(r) == multiset(xs)
    ensures |r| == |xs|
  {
    if xs == [] then []
    else
      assert xs == [xs[0]] + xs[1..];
      Insert(xs[0], SortBy(xs[1..], key), key)
  }

  lemma {:induction false} InsertSorted<T>(x: T, xs: seq<T>, key: T -> string)
    requires SortedBy(xs, key)
    ensures SortedBy(Insert(x, xs, key), key)
  {
    if xs == [] {
    } else if LexLe(key(x), key(xs[0])) {
      var r := Insert(x, xs, key);
      forall i, j | 0 <= i < j < |r| ensures LexLe(key(r[i]), key(r[j])) {
        if i == 0 && j > 1 {
          LexLeTransitive(key(x), key(xs[0]), key(r[j]));
        }
      }
    } else {
      var t := Insert(x, xs[1..], key);
      InsertSorted(x, xs[1..], key);
      LexLeTotal(key(x), key(xs[0]));
      var r := Insert(x, xs, key);
      assert r == [xs[0]] + t;
      forall j | 0 <= j < |t| ensures LexLe(key(xs[0]), key(t[j])) {
        if t[j] != x {
          var k :| 0 <= k < |xs[1..]| && xs[1..][k] == t[j];
          assert xs[k + 1] == t[j];
        }
      }
    }
  }

  /** The result of sorting is ordered by key (and, above, a permutation). */
  lemma {:induction false} SortBySorted<T>(xs: seq<T>, key: T -> string)
    ensures SortedBy(SortBy(xs, key), key)
  {
    if xs != [] {
      SortBySorted(xs[1..], key);
      InsertSorted(xs[0], SortBy(xs[1..], key), key);
    }
  }

  /** Keeping only some elements of a sorted list leaves it sorted. */
  lemma {:induction false} FilterSorted<T(!new)>(xs: seq<T>, p: T -> bool, key: T -> string)
    requires SortedBy(xs, key)
    ensures SortedBy(Common.Filter(xs, p), key)
  {
    if xs != [] {
      var init := xs[..|xs| - 1];
      var last := xs[|xs| - 1];
      assert SortedBy(init, key);
      FilterSorted(init, p, key);
      var f := Common.Filter(init, p);
      if p(last) {
        var r := Common.Filter(xs, p);
        assert r == f + [last];
        forall i | 0 <= i < |f| ensures LexLe(key(f[i]), key(last)) {
          assert f[i] in init;
          var k :| 0 <= k < |init| && init[k] == f[i];
          assert xs[k] == f[i];
        }
      }
    }
  }

  /** The elements of `xs` in the opposite order. */
  function Reverse<T>(xs: seq<T>): (r: seq<T>)
    ensures |r| == |xs|
    ensures forall i :: 0 <= i < |xs| ==> r[i] == xs[|xs| - 1 - i]
    ensures multiset(r) == multiset(xs)
  {
    if xs == [] then []
    else
      assert xs == [xs[0]] + xs[1..];
      Reverse(xs[1..]) + [xs[0]]
  }

  /** `ORDER BY key DESC`: a permutation of `xs` whose keys never increase. */
  lemma SortByDescending<T>(xs: seq<T>, key: T -> string)
    ensures multiset(Reverse(SortBy(xs, key))) == multiset(xs)
    ensures var r := Reverse(SortBy(xs, key));
            forall i, j :: 0 <= i < j < |r| ==> LexLe(key(r[j]), key(r[i]))
  {
    SortBySorted(xs, key);
  }
}
