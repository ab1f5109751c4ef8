/**
  POSIX paths as Python's pathlib.PurePosixPath sees them: the sequence of
  their parts, with the root "/" as the first part of an absolute path.
  Only the pathlib operations that ssg/parsers.py uses are modelled:
  `name`, `suffix`, `stem`, `parent`, `with_suffix`, `relative_to` and `/`.
*/
module Paths {
  import opened Outcomes

  const Root: string := "/"

  /** A part other than the root: pathlib drops empty parts and "." when it parses a path. */
  predicate IsPart(s: string) {
    s != "" && s != "." && '/' !in s
  }

  predicate WellFormed(parts: seq<string>) {
    forall i :: 0 <= i < |parts| ==> IsPart(parts[i]) || (i == 0 && parts[i] == Root)
  }

  /** The parts of a path; [] is the path ".". */
  type Path = parts: seq<string> | WellFormed(parts) witness []

  predicate IsAbsolute(p: Path) {
    |p| > 0 && p[0] == Root
  }

  /** `PurePath.name`: the final part, or "" for "." and "/". */
  function Name(p: Path): (n: string)
    ensures n == "" <==> |p| == 0 || p == [Root]
    ensures n != "" ==> IsPart(n) && n == p[|p| - 1]
  {
    if |p| == 0 || p[|p| - 1] == Root then "" else p[|p| - 1]
  }

  /** `PurePath.parent`: "." and "/" are their own parents. */
  function Parent(p: Path): (q: Path)
    ensures Name(p) != "" ==> q + [Name(p)] == p
    ensures Name(p) == "" ==> q == p
  {
    if |p| == 0 || p == [Root] then p else p[..|p| - 1]
  }

  /** `str.rfind`: the index of the last occurrence of `c` in `s`, or -1. */
  function LastIndexOf(s: string, c: char): (i: int)
    ensures -1 <= i < |s|
    ensures i >= 0 ==> s[i] == c
    ensures forall j :: i < j < |s| ==> s[j] != c
  {
    if |s| == 0 then -1
    else if s[|s| - 1] == c then |s| - 1
    else LastIndexOf(s[..|s| - 1], c)
  }

  /** pathlib sees a suffix when the last dot of the name is neither its first nor its last character. */
  predicate HasSuffix(name: string) {
    0 < LastIndexOf(name, '.') < |name| - 1
  }

  /** `PurePath.suffix` of a path whose name is `name`. */
  function Suffix(name: string): string {
    if HasSuffix(name) then name[LastIndexOf(name, '.')..] else ""
  }

  /** `PurePath.stem` of a path whose name is `name`. */
  function Stem(name: string): string {
    if HasSuffix(name) then name[..LastIndexOf(name, '.')] else name
  }

  /** A suffix as pathlib reports one: a dot followed by at least one character, none a dot or a separator. */
  predicate IsSingleSuffix(e: string) {
    && |e| >= 2
    && e[0] == '.'
    && (forall j :: 1 <= j < |e| ==> e[j] != '.')
    && '/' !in e
  }

  /** A name is its stem followed by its suffix, and a non-empty suffix is a single one. */
  lemma StemAndSuffix(name: string)
    requires '/' !in name
    ensures Stem(name) + Suffix(name) == name
    ensures Suffix(name) == "" || IsSingleSuffix(Suffix(name))
    ensures name != "" ==> Stem(name) != ""
  {
  }

  /**
    Appending a single suffix to a non-empty stem gives a name whose stem and
    suffix are exactly those two: the appended dot is the last one.
  */
  lemma SplitOfStemWithSuffix(stem: string, ext: string)
    requires stem != "" && IsSingleSuffix(ext)
    ensures Suffix(stem + ext) == ext && Stem(stem + ext) == stem
  {
    var n := stem + ext;
    var i := LastIndexOf(n, '.');
    assert n[|stem|] == ext[0] == '.';
    forall j | |stem| < j < |n| ensures n[j] != '.' {
      assert n[j] == ext[j - |stem|];
    }
    assert i == |stem|;
    assert n[..i] == stem;
    assert n[i..] == ext;
  }

  /**
    `PurePath.with_suffix`: the same parent, and the name's last suffix
    replaced by `suffix` (or `suffix` appended when there is none).
  */
  function WithSuffix(p: Path, suffix: string): (r: Result<Path>)
    ensures r.Ok? ==> && Name(p) != ""
                      && Parent(r.value) == Parent(p)
                      && Name(r.value) == Stem(Name(p)) + suffix
                      && IsPart(Name(r.value))
    ensures Name(p) == "" ==> r.Err?
    ensures IsSingleSuffix(suffix) && Name(p) != "" ==> r.Ok?
    ensures suffix != "" && suffix[0] != '.' ==> r == Err(InvalidSuffix)
  {
    if '/' in suffix || (suffix != "" && suffix[0] != '.') || suffix == "." then
      Err(InvalidSuffix)
    else if Name(p) == "" then
      Err(EmptyName)
    else
      var n := Stem(Name(p)) + suffix;
      StemAndSuffix(Name(p));
      if IsPart(n) then
        var q: Path := Parent(p) + [n];
        assert q[..|q| - 1] == Parent(p);
        Ok(q)
      else
        Err(InvalidSuffix)
  }

  /** `base / rel`: joining an absolute path discards the base. */
  function Join(base: Path, rel: Path): (r: Path)
    ensures IsAbsolute(rel) ==> r == rel
    ensures !IsAbsolute(rel) ==> r == base + rel
  {
    if IsAbsolute(rel) then rel
    else
      assert WellFormed(base + rel) by {
        forall i | |base| <= i < |base| + |rel| ensures IsPart((base + rel)[i]) {
          assert (base + rel)[i] == rel[i - |base|];
        }
      }
      base + rel
  }

  /**
    `PurePath.relative_to`: the parts of `p` after those of `base`. It fails
    when `base` is not a leading part of `p`, and "." is not a base of an
    absolute path.
  */
  function RelativeTo(p: Path, base: Path): (r: Result<Path>)
    ensures r.Err? ==> r.error == NotRelative
  {
    if |base| <= |p| && p[..|base|] == base && (base != [] || !IsAbsolute(p)) then
      Ok(p[|base|..])
    else
      Err(NotRelative)
  }

  /** What `relative_to` returns is relative, and joining it back onto the base gives the path. */
  lemma RelativeToJoin(p: Path, base: Path)
    requires RelativeTo(p, base).Ok?
    ensures !IsAbsolute(RelativeTo(p, base).value)
    ensures Join(base, RelativeTo(p, base).value) == p
  {
  }

  /** Conversely, every path that is a base joined with a relative path is relative to that base. */
  lemma JoinRelativeTo(base: Path, rel: Path)
    requires !IsAbsolute(rel)
    ensures RelativeTo(Join(base, rel), base) == Ok(rel)
  {
  }
}
