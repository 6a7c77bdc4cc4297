/** The parts of Python's `pathlib` on POSIX paths that the source uses: the
    final component (`name`), its extension (`suffix`), the name without it
    (`stem`), joining a directory and a file name, and ASCII lower-casing. */
module Paths {
  import opened Common

  /** The last index at which `c` occurs in `s` (Python's `rfind`). */
  function LastIndexOf(s: string, c: char): (r: Option<nat>)
    ensures r.Some? ==> r.value < |s| && s[r.value] == c && forall j :: r.value < j < |s| ==> s[j] != c
    ensures r.None? ==> forall j :: 0 <= j < |s| ==> s[j] != c
  {
    if s == [] then None
    else if s[|s| - 1] == c then Some(|s| - 1)
    else LastIndexOf(s[..|s| - 1], c)
  }

  /** `Path(p).name`: what follows the last '/'. */
  function Name(path: string): (r: string)
    ensures '/' !in r
    ensures exists k: nat :: k <= |path| && path[k..] == r
  {
    match LastIndexOf(path, '/')
    case None => assert path[0..] == path; path
    case Some(i) =>
      var r := path[i + 1..];
      assert forall j :: 0 <= j < |r| ==> r[j] == path[i + 1 + j];
      r
  }

  /** Where the extension of a file name starts: the last '.', provided it is
      neither the first nor the last character of the name. */
  function SuffixStart(name: string): (r: Option<nat>)
    ensures r.Some? ==> 0 < r.value < |name| - 1 && name[r.value] == '.'
  {
    match LastIndexOf(name, '.')
    case Some(i) => if 0 < i < |name| - 1 then Some(i) else None
    case None => None
  }

  /** `Path(name).suffix`, for a name without '/'. */
  function Suffix(name: string): (r: string)
    ensures |r| <= |name| && r == name[|name| - |r|..]
    ensures r == [] || (r[0] == '.' && |r| >= 2)
  {
    match SuffixStart(name)
    case Some(i) => name[i..]
    case None => ""
  }

  /** `Path(name).stem`, for a name without '/'. */
  function Stem(name: string): (r: string)
    ensures |r| <= |name| && r == name[..|r|]
    ensures name != [] ==> r != []
  {
    match SuffixStart(name)
    case Some(i) => name[..i]
    case None => name
  }

  /** A name is its stem followed by its suffix; the suffix is empty or starts
      with '.', and the stem of a non-empty name is non-empty. */
  lemma StemAndSuffix(name: string)
    ensures Stem(name) + Suffix(name) == name
    ensures Suffix(name) == [] || (Suffix(name)[0] == '.' && |Suffix(name)| >= 2)
    ensures name != [] ==> Stem(name) != []
    ensures '.' !in name ==> Stem(name) == name && Suffix(name) == []
  {
    match SuffixStart(name)
    case Some(i) =>
      assert name[..i] + name[i..] == name;
    case None =>
      if '.' !in name {
        assert LastIndexOf(name, '.').None?;
      }
  }

  /** A path without '/' is its own name. */
  lemma NameOfPlain(path: string)
    requires '/' !in path
    ensures Name(path) == path
  {
    assert LastIndexOf(path, '/').None?;
  }

  /** The stem of `base.ext`, for an extension without '.', is `base`. */
  lemma StemOfDotted(base: string, ext: string)
    requires base != [] && ext != [] && '.' !in ext
    ensures Stem(base + "." + ext) == base
    ensures Suffix(base + "." + ext) == "." + ext
  {
    var name := base + "." + ext;
    assert name[|base|] == '.';
    assert forall j :: |base| < j < |name| ==> name[j] == ext[j - |base| - 1];
    assert LastIndexOf(name, '.') == Some(|base|);
    assert name[..|base|] == base;
    assert name[|base|..] == "." + ext;
  }

  /** `str(Path(dir) / name)` for a non-empty directory path without a trailing '/'. */
  function Join(dir: string, name: string): (r: string)
    ensures '/' !in name ==> Name(r) == name
  {
    var r := dir + "/" + name;
    if '/' in name then r else JoinName(dir, name); r
  }

  lemma JoinName(dir: string, name: string)
    requires '/' !in name
    ensures Name(dir + "/" + name) == name
  {
    var r := dir + "/" + name;
    assert r[|dir|] == '/';
    assert forall j :: |dir| < j < |r| ==> r[j] == name[j - |dir| - 1];
    var li := LastIndexOf(r, '/');
    assert li == Some(|dir|);
    assert r[|dir| + 1..] == name;
  }

  function AsciiLowerChar(c: char): char
  {
    if 'A' <= c <= 'Z' then (c as int + 32) as char else c
  }

  /** `s.lower()` restricted to ASCII letters. */
  function AsciiLower(s: string): (r: string)
    ensures |r| == |s|
    ensures forall i :: 0 <= i < |s| ==> r[i] == AsciiLowerChar(s[i])
  {
    seq(|s|, i requires 0 <= i < |s| => AsciiLowerChar(s[i]))
  }
}
