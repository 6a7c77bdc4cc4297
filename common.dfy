/** Values and string operations shared by the modules of the model: the
    Option type that stands for Python's None, and the parts of Python's `str`
    API the source relies on (`strip`, `in`, `find`, `split`, slicing). */
module Common {

  datatype Option<+T> = None | Some(value: T)

  /** `sub` occurs in `s` starting at index `i`. */
  predicate OccursAt(s: string, sub: string, i: nat)
  {
    i + |sub| <= |s| && s[i..i + |sub|] == sub
  }

  /** Python's `sub in s`. */
  predicate Contains(s: string, sub: string)
  {
    exists i: nat | i <= |s| :: OccursAt(s, sub, i)
  }

  /** Python's `s.find(sub, k)`: the first occurrence of `sub` at or after `k`. */
  function FindFrom(s: string, sub: string, k: nat): (r: Option<nat>)
    decreases |s| - k
    ensures r.Some? ==> k <= r.value && OccursAt(s, sub, r.value)
    ensures r.Some? ==> forall j: nat :: k <= j < r.value ==> !OccursAt(s, sub, j)
    ensures r.None? ==> forall j: nat :: k <= j ==> !OccursAt(s, sub, j)
  {
    if k + |sub| > |s| then None
    else if s[k..k + |sub|] == sub then Some(k)
    else FindFrom(s, sub, k + 1)
  }

  function Find(s: string, sub: string): (r: Option<nat>)
    ensures r.Some? <==> Contains(s, sub)
    ensures r.Some? ==> OccursAt(s, sub, r.value) && forall j: nat :: j < r.value ==> !OccursAt(s, sub, j)
  {
    FindFrom(s, sub, 0)
  }

  /** Python's `s.split(sep)` for a non-empty separator: the pieces between
      successive non-overlapping occurrences, scanned from the left. */
  function Split(s: string, sep: string): (r: seq<string>)
    requires sep != []
    decreases |s|
    ensures |r| >= 1
  {
    match Find(s, sep)
    case None => [s]
    case Some(i) => [s[..i]] + Split(s[i + |sep|..], sep)
  }

  /** The first piece of a split is everything before the first separator. */
  lemma SplitFirst(s: string, sep: string)
    requires sep != []
    ensures Find(s, sep).None? ==> Split(s, sep) == [s]
    ensures Find(s, sep).Some? ==> Split(s, sep)[0] == s[..Find(s, sep).value]
  {
  }

  /** When `sep` occurs, the second piece runs from the end of its first
      occurrence up to the next occurrence, or to the end of `s`. */
  lemma SplitSecond(s: string, sep: string)
    requires sep != [] && Contains(s, sep)
    ensures |Split(s, sep)| >= 2
    ensures var i := Find(s, sep).value;
            var rest := s[i + |sep|..];
            Split(s, sep)[1] == if Contains(rest, sep) then rest[..Find(rest, sep).value] else rest
  {
    var i := Find(s, sep).value;
    var rest := s[i + |sep|..];
    assert Split(s, sep) == [s[..i]] + Split(rest, sep);
    SplitFirst(rest, sep);
  }

  /** Characters Python's `str.isspace` accepts: what `strip()` with no
      argument removes. */
  predicate IsPySpace(c: char)
  {
    || ('\t' <= c <= '\r')
    || ('\U{1c}' <= c <= '\U{1f}')
    || c == ' ' || c == '\U{85}' || c == '\U{a0}' || c == '\U{1680}'
    || ('\U{2000}' <= c <= '\U{200a}')
    || c == '\U{2028}' || c == '\U{2029}' || c == '\U{202f}' || c == '\U{205f}' || c == '\U{3000}'
  }

  /** Python's `lstrip`: drop the leading characters that satisfy `p`. */
  function TrimStart(s: string, p: char -> bool): (r: string)
    decreases |s|
    ensures |r| <= |s| && r == s[|s| - |r|..]
    ensures r == [] || !p(r[0])
    ensures forall i :: 0 <= i < |s| - |r| ==> p(s[i])
  {
    if s != [] && p(s[0]) then TrimStart(s[1..], p) else s
  }

  /** Python's `rstrip`: drop the trailing characters that satisfy `p`. */
  function TrimEnd(s: string, p: char -> bool): (r: string)
    decreases |s|
    ensures |r| <= |s| && r == s[..|r|]
    ensures r == [] || !p(r[|r| - 1])
    ensures forall i :: |r| <= i < |s| ==> p(s[i])
  {
    if s != [] && p(s[|s| - 1]) then TrimEnd(s[..|s| - 1], p) else s
  }

  /** Python's `strip`: both ends. The result is the infix of `s` that is left
      once the characters satisfying `p` are removed from both ends. */
  function StripBy(s: string, p: char -> bool): (r: string)
    ensures |r| <= |s|
    ensures r == [] || (!p(r[0]) && !p(r[|r| - 1]))
    ensures exists a: nat :: OccursAt(s, r, a)
                        && (forall i :: 0 <= i < a ==> p(s[i]))
                        && (forall i :: a + |r| <= i < |s| ==> p(s[i]))
  {
    var t := TrimStart(s, p);
    var r := TrimEnd(t, p);
    var a := |s| - |t|;
    assert OccursAt(s, r, a);
    r
  }

  /** `s.strip()`. */
  function Strip(s: string): string
  {
    StripBy(s, IsPySpace)
  }

  /** `s.strip(chars)`. */
  function StripChars(s: string, chars: set<char>): string
  {
    StripBy(s, c => c in chars)
  }

  /** Python's `s[:n]` (and JavaScript's `s.slice(0, n)`) for n >= 0. */
  function Prefix(s: string, n: nat): (r: string)
    ensures |r| == if n < |s| then n else |s|
    ensures r <= s
  {
    if n < |s| then s[..n] else s
  }

  /** JavaScript's `s.slice(a, b)` for 0 <= a <= b: the indices are clamped to
      the length of the string. */
  function Slice(s: string, a: nat, b: nat): (r: string)
    requires a <= b
    ensures a <= |s| ==> r == s[a..if b < |s| then b else |s|]
    ensures |s| <= a ==> r == []
  {
    if |s| <= a then [] else s[a..if b < |s| then b else |s|]
  }

  /** The elements of `xs` that satisfy `p`, in their order (a list
      comprehension with a condition, or a SQL WHERE over rows). */
  function Filter<T(!new)>(xs: seq<T>, p: T -> bool): (r: seq<T>)
    ensures |r| <= |xs|
    ensures forall x :: x in r <==> x in xs && p(x)
    ensures forall i :: 0 <= i < |r| ==> p(r[i])
  {
    if xs == [] then []
    else
      var init := xs[..|xs| - 1];
      var last := xs[|xs| - 1];
      assert xs == init + [last];
      if p(last) then Filter(init, p) + [last] else Filter(init, p)
  }

  lemma FilterAppend<T(!new)>(xs: seq<T>, x: T, p: T -> bool)
    ensures Filter(xs + [x], p) == if p(x) then Filter(xs, p) + [x] else Filter(xs, p)
  {
    assert (xs + [x])[..|xs|] == xs;
  }

  lemma {:induction false} FilterConcat<T(!new)>(xs: seq<T>, ys: seq<T>, p: T -> bool)
    decreases |ys|
    ensures Filter(xs + ys, p) == Filter(xs, p) + Filter(ys, p)
  {
    if ys != [] {
      var init := ys[..|ys| - 1];
      var last := ys[|ys| - 1];
      assert ys == init + [last];
      assert xs + ys == (xs + init) + [last];
      FilterConcat(xs, init, p);
      FilterAppend(xs + init, last, p);
      FilterAppend(init, last, p);
    } else {
      assert xs + ys == xs;
    }
  }

  lemma {:induction false} FilterAll<T(!new)>(xs: seq<T>, p: T -> bool)
    requires forall i :: 0 <= i < |xs| ==> p(xs[i])
    ensures Filter(xs, p) == xs
  {
    if xs != [] {
      FilterAll(xs[..|xs| - 1], p);
    }
  }

  lemma {:induction false} FilterNone<T(!new)>(xs: seq<T>, p: T -> bool)
    requires forall i :: 0 <= i < |xs| ==> !p(xs[i])
    ensures Filter(xs, p) == []
  {
    if xs != [] {
      FilterNone(xs[..|xs| - 1], p);
    }
  }

  /** Stripping a string whose ends are kept changes nothing. */
  lemma StripNothing(s: string, p: char -> bool)
    requires s == [] || (!p(s[0]) && !p(s[|s| - 1]))
    ensures StripBy(s, p) == s
  {
  }

  lemma SliceSplit<T>(s: seq<T>, x: nat, y: nat, z: nat)
    requires x <= y <= z <= |s|
    ensures s[x..z] == s[x..y] + s[y..z]
  {
  }

  lemma StripCharsNothing(s: string, chars: set<char>)
    requires s == [] || (s[0] !in chars && s[|s| - 1] !in chars)
    ensures StripChars(s, chars) == s
  {
    StripNothing(s, c => c in chars);
  }

  predicate Distinct<T(==)>(s: seq<T>)
  {
    forall i, j :: 0 <= i < j < |s| ==> s[i] != s[j]
  }

  /** A sequence without repeats has as many elements as its set. */
  lemma {:induction false} DistinctCard<T>(s: seq<T>)
    requires Distinct(s)
    decreases |s|
    ensures |set x | x in s| == |s|
  {
    if s != [] {
      var n := |s| - 1;
      DistinctCard(s[..n]);
      assert (set x | x in s) == (set x | x in s[..n]) + {s[n]};
      assert s[n] !in s[..n];
    }
  }

  /** Everything before the first `sep`, or all of `s` when there is none. */
  function UpTo(s: string, sep: string): (r: string)
    ensures r <= s
  {
    match Find(s, sep)
    case Some(i) => s[..i]
    case None => s
  }

  /** Everything after the first `sep`. */
  function After(s: string, sep: string): string
    requires Contains(s, sep)
  {
    var i := Find(s, sep).value;
    s[i + |sep|..]
  }

  /** The first two pieces of `s.split(sep)`. */
  lemma SplitPieces(s: string, sep: string)
    requires sep != []
    ensures Split(s, sep)[0] == UpTo(s, sep)
    ensures Contains(s, sep) ==> |Split(s, sep)| >= 2 && Split(s, sep)[1] == UpTo(After(s, sep), sep)
  {
    SplitFirst(s, sep);
    if Contains(s, sep) {
      SplitSecond(s, sep);
    }
  }

  /** No separator is left in what comes before the first one. */
  lemma UpToClean(s: string, sep: string)
    requires sep != []
    ensures !Contains(UpTo(s, sep), sep)
  {
    match Find(s, sep)
    case None =>
    case Some(i) =>
      var r := s[..i];
      forall j: nat | j <= |r| ensures !OccursAt(r, sep, j) {
        if OccursAt(r, sep, j) {
          assert s[j..j + |sep|] == r[j..j + |sep|];
          assert OccursAt(s, sep, j);
        }
      }
  }

  lemma UpToOfClean(s: string, sep: string)
    requires !Contains(s, sep)
    ensures UpTo(s, sep) == s
  {
  }

  /** Stripping cannot create an occurrence: the result is an infix. */
  lemma StripKeepsOut(s: string, sub: string)
    requires !Contains(s, sub)
    ensures !Contains(Strip(s), sub)
  {
    var r := Strip(s);
    var a: nat :| OccursAt(s, r, a);
    InfixKeepsOut(s, r, a, sub);
  }

  /** An infix of a text without `sub` has no `sub` either. */
  lemma InfixKeepsOut(s: string, r: string, a: nat, sub: string)
    requires OccursAt(s, r, a) && !Contains(s, sub)
    ensures !Contains(r, sub)
  {
    forall j: nat | j <= |r| ensures !OccursAt(r, sub, j) {
      InfixOccurs(s, r, a, sub, j);
    }
  }

  lemma InfixOccurs(s: string, r: string, a: nat, sub: string, j: nat)
    requires OccursAt(s, r, a)
    ensures OccursAt(r, sub, j) ==> OccursAt(s, sub, a + j)
  {
    if OccursAt(r, sub, j) {
      forall k | 0 <= k < |sub| ensures s[a + j..a + j + |sub|][k] == sub[k] {
        assert sub[k] == r[j + k] == s[a..a + |r|][j + k];
      }
    }
  }

  /** Splitting at the newline that ends a first line without one. */
  lemma SplitLine(line: string, rest: string)
    requires '\n' !in line
    ensures Split(line + "\n" + rest, "\n") == [line] + Split(rest, "\n")
  {
    var s := line + "\n" + rest;
    var n := |line|;
    assert OccursAt(s, "\n", n);
    forall j: nat | j < n ensures !OccursAt(s, "\n", j) {
      assert s[j] == line[j];
    }
    FindAt(s, "\n", n);
    assert s[..n] == line;
    assert s[n + 1..] == rest;
  }

  /** `Find` reports the first occurrence. */
  lemma FindAt(s: string, sub: string, n: nat)
    requires OccursAt(s, sub, n)
    requires forall j: nat :: j < n ==> !OccursAt(s, sub, j)
    ensures Find(s, sub) == Some(n)
  {
    assert OccursAt(s, sub, n);
  }
}
