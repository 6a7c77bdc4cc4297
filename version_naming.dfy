/** How `admin_upload` (server/routes.py) derives a document's version date
    and version group from its file name: the nested helper
    `_extract_date_and_group`, with the two regular expressions it uses
    written out as matchers over the stem. */
module VersionNaming {
  import opened Common
  import Paths

  /** `\d`, restricted to ASCII digits. */
  predicate IsDigit(c: char)
  {
    '0' <= c <= '9'
  }

  /** The character class `[-_.]`. */
  predicate IsSep(c: char)
  {
    c == '-' || c == '_' || c == '.'
  }

  /** `\d{n}` matches at `i`. */
  predicate DigitsAt(s: string, i: nat, n: nat)
  {
    i + n <= |s| && forall k :: i <= k < i + n ==> IsDigit(s[k])
  }

  /** `[-_.]?` at `i`, greedily. */
  function SkipSep(s: string, i: nat): (r: nat)
    ensures r == i || (r == i + 1 && i < |s| && IsSep(s[i]))
  {
    if i < |s| && IsSep(s[i]) then i + 1 else i
  }

  // ---- the regular expression, as a relation ----

  /** `\d{4}[-_.]?\d{2}[-_.]?\d{2}` matches `s[i..e]`, the two-digit groups
      starting at `j` and `k`: every way the pattern can match, with no
      preference among alternatives. */
  predicate CoreShape(s: string, i: nat, j: nat, k: nat, e: nat)
  {
    && DigitsAt(s, i, 4)
    && (j == i + 4 || (j == i + 5 && i + 4 < |s| && IsSep(s[i + 4])))
    && DigitsAt(s, j, 2)
    && (k == j + 2 || (k == j + 3 && j + 2 < |s| && IsSep(s[j + 2])))
    && DigitsAt(s, k, 2)
    && e == k + 2
  }

  ghost predicate MatchesCore(s: string, i: nat, e: nat)
  {
    exists j: nat, k: nat :: CoreShape(s, i, j, k, e)
  }

  // ---- the matcher ----

  /** A match of the date pattern: where it starts and ends, and
      `group(1) + group(2) + group(3)`. */
  datatype DateMatch = DateMatch(start: nat, end: nat, date: string)

  /** The date pattern matched at `i`. A separator is never a digit, so each
      optional separator is taken exactly when one is there. */
  function CoreAt(s: string, i: nat): (r: Option<DateMatch>)
    ensures r.Some? ==> r.value.start == i && i + 8 <= r.value.end <= i + 10 && r.value.end <= |s|
    ensures r.Some? ==> CoreShape(s, i, SkipSep(s, i + 4), SkipSep(s, SkipSep(s, i + 4) + 2), r.value.end)
    ensures r.Some? ==> r.value.date == Filter(s[i..r.value.end], IsDigit)
    ensures r.Some? ==> |r.value.date| == 8 && forall n :: 0 <= n < 8 ==> IsDigit(r.value.date[n])
  {
    if !DigitsAt(s, i, 4) then None
    else
      var j := SkipSep(s, i + 4);
      if !DigitsAt(s, j, 2) then None
      else
        var k := SkipSep(s, j + 2);
        if !DigitsAt(s, k, 2) then None
        else
          var date := s[i..i + 4] + s[j..j + 2] + s[k..k + 2];
          CoreDigits(s, i, j, k);
          Some(DateMatch(i, k + 2, date))
  }

  /** The digits of a match are its three digit groups: the separators fall out. */
  lemma CoreDigits(s: string, i: nat, j: nat, k: nat)
    requires CoreShape(s, i, j, k, k + 2)
    ensures Filter(s[i..k + 2], IsDigit) == s[i..i + 4] + s[j..j + 2] + s[k..k + 2]
  {
    var a, b, c := s[i..i + 4], s[j..j + 2], s[k..k + 2];
    var sa, sb := s[i + 4..j], s[j + 2..k];
    SliceSplit(s, i, i + 4, j);
    SliceSplit(s, i, j, j + 2);
    SliceSplit(s, i, j + 2, k);
    SliceSplit(s, i, k, k + 2);
    assert s[i..k + 2] == a + sa + b + sb + c;
    DigitGroups(a, sa, b, sb, c);
  }

  lemma DigitGroups(a: string, sa: string, b: string, sb: string, c: string)
    requires forall n :: 0 <= n < |a| ==> IsDigit(a[n])
    requires forall n :: 0 <= n < |b| ==> IsDigit(b[n])
    requires forall n :: 0 <= n < |c| ==> IsDigit(c[n])
    requires forall n :: 0 <= n < |sa| ==> !IsDigit(sa[n])
    requires forall n :: 0 <= n < |sb| ==> !IsDigit(sb[n])
    ensures Filter(a + sa + b + sb + c, IsDigit) == a + b + c
  {
    FilterAll(a, IsDigit);
    FilterNone(sa, IsDigit);
    FilterConcat(a, sa, IsDigit);
    assert Filter(a + sa, IsDigit) == a;
    FilterAll(b, IsDigit);
    FilterConcat(a + sa, b, IsDigit);
    assert Filter(a + sa + b, IsDigit) == a + b;
    FilterNone(sb, IsDigit);
    FilterConcat(a + sa + b, sb, IsDigit);
    assert Filter(a + sa + b + sb, IsDigit) == a + b;
    FilterAll(c, IsDigit);
    FilterConcat(a + sa + b + sb, c, IsDigit);
  }

  /** The matcher agrees with the relation: it succeeds exactly when the
      pattern can match at `i`, and the match it returns ends where any
      match at `i` ends (matches at one position are unique). */
  lemma CoreAtMatches(s: string, i: nat)
    ensures CoreAt(s, i).Some? ==> MatchesCore(s, i, CoreAt(s, i).value.end)
    ensures forall e: nat :: MatchesCore(s, i, e) ==> CoreAt(s, i).Some? && CoreAt(s, i).value.end == e
  {
    var r := CoreAt(s, i);
    if r.Some? {
      assert CoreShape(s, i, SkipSep(s, i + 4), SkipSep(s, SkipSep(s, i + 4) + 2), r.value.end);
    }
    forall e: nat | MatchesCore(s, i, e) ensures r.Some? && r.value.end == e {
      var j: nat, k: nat :| CoreShape(s, i, j, k, e);
      assert j == SkipSep(s, i + 4);
      assert k == SkipSep(s, j + 2);
    }
  }

  /** `re.search`: the leftmost match at or after `i`. */
  function SearchFrom(s: string, i: nat): (r: Option<DateMatch>)
    decreases |s| - i
    ensures r.Some? ==> i <= r.value.start && CoreAt(s, r.value.start) == r
    ensures r.Some? ==> forall j: nat :: i <= j < r.value.start ==> CoreAt(s, j).None?
    ensures r.None? ==> forall j: nat :: i <= j ==> CoreAt(s, j).None?
  {
    if i + 8 > |s| then
      NoCoreNearEnd(s, i);
      None
    else match CoreAt(s, i)
      case Some(m) => Some(m)
      case None => SearchFrom(s, i + 1)
  }

  /** A date needs eight characters. */
  lemma NoCoreNearEnd(s: string, i: nat)
    requires i + 8 > |s|
    ensures forall j: nat :: i <= j ==> CoreAt(s, j).None?
  {
  }

  function FindDate(s: string): Option<DateMatch>
  {
    SearchFrom(s, 0)
  }

  /** `[-_.]?\d{4}[-_.]?\d{2}[-_.]?\d{2}[-_.]?` matched at `p`: where the
      match ends. When `s[p]` is a separator not followed by a date, the
      alternative without it needs a digit at `p` and fails as well. */
  function SubAt(s: string, p: nat): (r: Option<nat>)
    ensures r.Some? ==> p + 8 <= r.value <= |s|
  {
    match CoreAt(s, SkipSep(s, p))
    case None => None
    case Some(m) => Some(SkipSep(s, m.end))
  }

  /** `[-_.]?\d{4}[-_.]?\d{2}[-_.]?\d{2}[-_.]?` can match `s[p..e]`: an
      optional separator, the date pattern, and another optional separator,
      with no preference among alternatives. */
  ghost predicate SubShape(s: string, p: nat, e: nat)
  {
    exists a: nat, c: nat ::
      && (a == p || (a == p + 1 && p < |s| && IsSep(s[p])))
      && MatchesCore(s, a, c)
      && (e == c || (e == c + 1 && c < |s| && IsSep(s[c])))
  }

  /** The deletion matcher agrees with the relation: it succeeds exactly when
      the pattern can match at `p`, and it ends at the longest such match,
      as the greedy optional separators make the regular expression do. */
  lemma SubAtMatches(s: string, p: nat)
    ensures SubAt(s, p).Some? ==> SubShape(s, p, SubAt(s, p).value)
    ensures forall e: nat :: SubShape(s, p, e) ==> SubAt(s, p).Some? && e <= SubAt(s, p).value
  {
    var a := SkipSep(s, p);
    CoreAtMatches(s, a);
    if SubAt(s, p).Some? {
      var c := CoreAt(s, a).value.end;
      assert MatchesCore(s, a, c);
      assert SubShape(s, p, SkipSep(s, c));
    }
    forall e: nat | SubShape(s, p, e) ensures SubAt(s, p).Some? && e <= SubAt(s, p).value {
      var a': nat, c: nat :| && (a' == p || (a' == p + 1 && p < |s| && IsSep(s[p])))
                             && MatchesCore(s, a', c)
                             && (e == c || (e == c + 1 && c < |s| && IsSep(s[c])));
      var j: nat, k: nat :| CoreShape(s, a', j, k, c);
      assert a' == a;
      CoreAtMatches(s, a');
    }
  }

  /** `re.sub(pattern, '', s[p..])`: scan from the left, drop each match,
      resume after it, and keep every character no match starts at. */
  function RemoveDates(s: string, p: nat): (r: string)
    requires p <= |s|
    decreases |s| - p
    ensures |r| <= |s| - p
  {
    if p == |s| then []
    else match SubAt(s, p)
      case Some(e) => RemoveDates(s, e)
      case None => [s[p]] + RemoveDates(s, p + 1)
  }

  /** Where no deletion can start, `re.sub` leaves the text as it is. */
  lemma {:induction false} RemoveNothing(s: string, p: nat)
    requires p <= |s|
    requires forall q: nat :: p <= q < |s| ==> SubAt(s, q).None?
    decreases |s| - p
    ensures RemoveDates(s, p) == s[p..]
  {
    if p < |s| {
      RemoveNothing(s, p + 1);
      assert s[p..] == [s[p]] + s[p + 1..];
    }
  }

  /** The characters `strip` removes from the group: `'_.- '`. */
  const GroupTrim: set<char> := {'_', '.', '-', ' '}

  /** `_extract_date_and_group` on a stem: the date of the leftmost
      date-shaped part, and the stem with every date-shaped part removed and
      trimmed, or the whole stem when that leaves nothing; `("", stem)` when
      the stem has no date. */
  function SplitStem(stem: string): (string, string)
  {
    match FindDate(stem)
    case None => ("", stem)
    case Some(m) =>
      var group := StripChars(RemoveDates(stem, 0), GroupTrim);
      (m.date, if group != "" then group else stem)
  }

  /** The stem `_extract_date_and_group` works on: `Path(filename).stem`. */
  function StemOf(filename: string): string
  {
    Paths.Stem(Paths.Name(filename))
  }

  /** `_extract_date_and_group(filename)`. */
  function ExtractDateAndGroup(filename: string): (string, string)
  {
    SplitStem(StemOf(filename))
  }

  /** With no date-shaped part anywhere in the stem the result is `("", stem)`;
      otherwise the date is the eight digits of the leftmost place where the
      pattern matches, with the separators dropped. */
  lemma ExtractedDate(stem: string)
    ensures (forall i: nat, e: nat :: !MatchesCore(stem, i, e)) ==> SplitStem(stem) == ("", stem)
    ensures var date := SplitStem(stem).0;
            (exists i: nat, e: nat :: MatchesCore(stem, i, e)) ==>
              exists i: nat, e: nat ::
                && MatchesCore(stem, i, e)
                && (forall j: nat, e': nat :: j < i ==> !MatchesCore(stem, j, e'))
                && date == Filter(stem[i..e], IsDigit)
                && |date| == 8
                && forall n :: 0 <= n < 8 ==> IsDigit(date[n])
  {
    var found := FindDate(stem);
    if found.None? {
      forall i: nat, e: nat ensures !MatchesCore(stem, i, e) {
        CoreAtMatches(stem, i);
      }
    } else {
      var m := found.value;
      CoreAtMatches(stem, m.start);
      forall j: nat, e': nat | j < m.start ensures !MatchesCore(stem, j, e') {
        CoreAtMatches(stem, j);
      }
      assert MatchesCore(stem, m.start, m.end);
    }
  }

  /** The group is never empty for a non-empty stem, and unless it is the
      whole stem it neither starts nor ends with one of `'_.- '`. */
  lemma ExtractedGroup(stem: string)
    ensures var g := SplitStem(stem).1;
            && (stem != [] ==> g != [])
            && (g == stem || (g[0] !in GroupTrim && g[|g| - 1] !in GroupTrim))
  {
    if FindDate(stem).Some? {
      var removed := RemoveDates(stem, 0);
      var p := c => c in GroupTrim;
      var group := StripBy(removed, p);
      assert StripChars(removed, GroupTrim) == group;
      if group != [] {
        assert !p(group[0]) && !p(group[|group| - 1]);
      }
    }
  }

  /** `re.sub` copies a stretch where no deletion starts. */
  lemma RemoveKeeps(s: string, p: nat, q: nat)
    requires p <= q <= |s|
    requires forall n: nat :: p <= n < q ==> SubAt(s, n).None?
    ensures RemoveDates(s, p) == s[p..q] + RemoveDates(s, q)
  {
    KeptSteps(s, p, q);
    PeelKept(s, Remainders(s), p, q);
  }

  /** `RemoveDates(s, n)` as a function of `n`. */
  function Remainders(s: string): nat -> string
  {
    (n: nat) => if n <= |s| then RemoveDates(s, n) else []
  }

  lemma KeptSteps(s: string, p: nat, q: nat)
    requires p <= q <= |s|
    requires forall n: nat :: p <= n < q ==> SubAt(s, n).None?
    ensures forall n: nat :: p <= n < q ==> Remainders(s)(n) == [s[n]] + Remainders(s)(n + 1)
  {
    forall n: nat | p <= n < q ensures Remainders(s)(n) == [s[n]] + Remainders(s)(n + 1) {
      KeptStep(s, n);
    }
  }

  lemma KeptStep(s: string, n: nat)
    requires n < |s| && SubAt(s, n).None?
    ensures Remainders(s)(n) == [s[n]] + Remainders(s)(n + 1)
  {
    RemoveKeepsOne(s, n);
  }

  /** A scan that copies each character of `s[p..q]` copies the stretch. */
  lemma {:induction false} PeelKept(s: string, f: nat -> string, p: nat, q: nat)
    requires p <= q <= |s|
    requires forall n: nat :: p <= n < q ==> f(n) == [s[n]] + f(n + 1)
    decreases q - p
    ensures f(p) == s[p..q] + f(q)
  {
    if p < q {
      PeelKept(s, f, p + 1, q);
      assert s[p..q] == [s[p]] + s[p + 1..q];
    }
  }

  lemma RemoveKeepsOne(s: string, p: nat)
    requires p < |s| && SubAt(s, p).None?
    ensures RemoveDates(s, p) == [s[p]] + RemoveDates(s, p + 1)
  {
  }

  /** No date starts at a character that is not a digit. */
  lemma NoDateAtNonDigit(s: string, q: nat)
    requires q < |s| && !IsDigit(s[q])
    ensures CoreAt(s, q).None?
  {
  }

  /** Eight digits in a row at the end of `s` are matched as one date. */
  lemma DateAtEnd(s: string, d: nat)
    requires d + 8 == |s| && forall n :: d <= n < |s| ==> IsDigit(s[n])
    ensures CoreAt(s, d) == Some(DateMatch(d, |s|, s[d..]))
  {
    assert SkipSep(s, d + 4) == d + 4 && SkipSep(s, d + 6) == d + 6;
    assert s[d..d + 4] + s[d + 4..d + 6] + s[d + 6..d + 8] == s[d..];
  }

  /** When the first match starts at `d`, the search finds it. */
  lemma SearchFinds(s: string, i: nat, d: nat)
    requires i <= d && CoreAt(s, d).Some?
    requires forall q: nat :: i <= q < d ==> CoreAt(s, q).None?
    ensures SearchFrom(s, i) == CoreAt(s, d)
  {
    SearchSteps(s, i, d);
    PeelSame(Searches(s), i, d);
  }

  /** `SearchFrom(s, n)` as a function of `n`. */
  function Searches(s: string): nat -> Option<DateMatch>
  {
    (n: nat) => SearchFrom(s, n)
  }

  lemma SearchSteps(s: string, i: nat, d: nat)
    requires i <= d && CoreAt(s, d).Some?
    requires forall q: nat :: i <= q < d ==> CoreAt(s, q).None?
    ensures forall n: nat :: i <= n < d ==> Searches(s)(n) == Searches(s)(n + 1)
    ensures Searches(s)(d) == CoreAt(s, d)
  {
    assert d + 8 <= |s|;
    forall n: nat | i <= n < d ensures SearchFrom(s, n) == SearchFrom(s, n + 1) {
      assert n + 8 <= |s| && CoreAt(s, n).None?;
    }
  }

  /** A sequence of values each equal to the next is constant. */
  lemma {:induction false} PeelSame<T>(f: nat -> T, i: nat, d: nat)
    requires i <= d
    requires forall n: nat :: i <= n < d ==> f(n) == f(n + 1)
    decreases d - i
    ensures f(i) == f(d)
  {
    if i < d {
      PeelSame(f, i + 1, d);
    }
  }

  /** The shape of stem `TrailingDate` is about. */
  predicate NameSepDate(name: string, sep: char, date: string)
  {
    && (forall n :: 0 <= n < |name| ==> !IsDigit(name[n]))
    && IsSep(sep)
    && |date| == 8 && (forall n :: 0 <= n < 8 ==> IsDigit(date[n]))
  }

  lemma TrailingFind(name: string, sep: char, date: string)
    requires NameSepDate(name, sep, date)
    ensures FindDate(name + [sep] + date) == Some(DateMatch(|name| + 1, |name| + 9, date))
    ensures forall q: nat :: q <= |name| ==> CoreAt(name + [sep] + date, q).None?
  {
    var stem := name + [sep] + date;
    var d := |name| + 1;
    assert stem[..|name|] == name && stem[|name|] == sep && stem[d..] == date;
    forall q: nat | q < d ensures CoreAt(stem, q).None? {
      NoDateAtNonDigit(stem, q);
    }
    DateAtEnd(stem, d);
    SearchFinds(stem, 0, d);
  }

  lemma TrailingRemove(name: string, sep: char, date: string)
    requires NameSepDate(name, sep, date)
    ensures RemoveDates(name + [sep] + date, 0) == name
  {
    var stem := name + [sep] + date;
    TrailingFind(name, sep, date);
    forall q: nat | q < |name| ensures SubAt(stem, q).None? {
      assert CoreAt(stem, q).None? && CoreAt(stem, q + 1).None?;
    }
    RemoveKeeps(stem, 0, |name|);
    assert stem[0..|name|] == name;
    assert SkipSep(stem, |name|) == |name| + 1;
    assert SubAt(stem, |name|) == Some(|stem|);
    assert RemoveDates(stem, |name|) == [];
  }

  /** A stem made of a name without digits, one separator and an eight-digit
      date gives that date and the trimmed name (or the whole stem, when
      trimming leaves nothing). */
  lemma TrailingDate(stem: string, name: string, sep: char, date: string)
    requires NameSepDate(name, sep, date)
    requires stem == name + [sep] + date
    ensures var g := StripChars(name, GroupTrim);
            SplitStem(stem) == (date, if g != "" then g else stem)
  {
    TrailingFind(name, sep, date);
    TrailingRemove(name, sep, date);
  }

  /** The example in the helper's docstring: `인사규정_20260101.hwp` gives
      `("20260101", "인사규정")`. */
  lemma DocstringExample(file: string)
    requires file == "인사규정_20260101.hwp"
    ensures ExtractDateAndGroup(file) == ("20260101", "인사규정")
  {
    ExampleStem(file);
    ExampleName();
    TrailingDate(StemOf(file), "인사규정", '_', "20260101");
  }

  lemma ExampleStem(file: string)
    requires file == "인사규정_20260101.hwp"
    ensures StemOf(file) == "인사규정" + ['_'] + "20260101"
  {
    var name, date := "인사규정", "20260101";
    ExampleDigits();
    assert '/' !in name;
    assert file == (name + ['_'] + date) + "." + "hwp";
    StemOfFile(name + ['_'] + date, "hwp", name, date);
  }

  /** The stem of a plain file name `name_date.ext` is `name_date`. */
  lemma StemOfFile(base: string, ext: string, name: string, date: string)
    requires base == name + ['_'] + date && NameSepDate(name, '_', date) && '/' !in name
    requires ext != [] && '.' !in ext && '/' !in ext
    ensures StemOf(base + "." + ext) == base
  {
    var f := base + "." + ext;
    forall n | 0 <= n < |f| ensures f[n] != '/' {
      if n < |name| {
        assert f[n] == name[n];
      } else if |name| < n < |base| {
        assert f[n] == date[n - |name| - 1];
      } else if n > |base| {
        assert f[n] == ext[n - |base| - 1];
      }
    }
    Paths.NameOfPlain(f);
    Paths.StemOfDotted(base, ext);
  }

  lemma ExampleName()
    ensures StripChars("인사규정", GroupTrim) == "인사규정"
    ensures NameSepDate("인사규정", '_', "20260101")
  {
    ExampleStrip();
    ExampleDigits();
  }

  lemma ExampleStrip()
    ensures StripChars("인사규정", GroupTrim) == "인사규정"
  {
    StripCharsNothing("인사규정", GroupTrim);
  }

  lemma ExampleDigits()
    ensures NameSepDate("인사규정", '_', "20260101")
  {
    var name, date := "인사규정", "20260101";
    assert name[0] == '인' && name[1] == '사' && name[2] == '규' && name[3] == '정';
    assert date[0] == '2' && date[1] == '0' && date[2] == '2' && date[3] == '6';
    assert date[4] == '0' && date[5] == '1' && date[6] == '0' && date[7] == '1';
  }
}
