/** The part of `pathlib` the routers rely on: parsing, `/`, `str()`,
    `resolve()` without symlinks, `parent`, `name`, `suffix`, `stem` and
    `relative_to`, all on POSIX paths. */
module Paths {
  import opened Outcomes
  import opened Strings

  /** A path: absolute, or relative to the working directory, with its
      components (pathlib's `parts` without the leading `/`). */
  datatype Path = Path(absolute: bool, parts: seq<string>)

  /** No component is empty, `.` or `..`: the shape `resolve()` produces. */
  predicate Normal(parts: seq<string>) {
    forall k :: 0 <= k < |parts| ==> parts[k] != "" && parts[k] != "." && parts[k] != ".."
  }

  /** `Path(s)`: the text between slashes, without empty and `.` components;
      a leading `/` makes the path absolute. `..` components are kept. */
  function Parse(s: string): (p: Path)
    ensures forall k :: 0 <= k < |p.parts| ==> p.parts[k] != "" && p.parts[k] != "." && '/' !in p.parts[k]
  {
    Path(|s| > 0 && s[0] == '/', Without(Split(s, '/'), {"", "."}))
  }

  /** A string with no `/` that is neither empty nor `.` is a one-component
      relative path. */
  lemma ParseName(name: string)
    requires '/' !in name && name != "" && name != "."
    ensures Parse(name) == Path(false, [name])
  {
    assert Split(name, '/') == [name];
  }

  /** `a/b`, for two such names, is a two-component relative path. */
  lemma ParsePair(a: string, b: string)
    requires '/' !in a && a != "" && a != "."
    requires '/' !in b && b != "" && b != "."
    ensures Parse(a + ['/'] + b) == Path(false, [a, b])
  {
    var s := a + ['/'] + b;
    SplitTwo(a, b, '/');
    assert s[0] == a[0] && a[0] in a;
    assert [a, b][..1] == [a];
    assert [a][..0] == [];
    assert Without([a], {"", "."}) == [a];
    assert Without([a, b], {"", "."}) == [a, b];
  }

  /** `str(p)` */
  function Str(p: Path): string {
    if p.absolute then "/" + JoinWith(p.parts, '/')
    else if p.parts == [] then "."
    else JoinWith(p.parts, '/')
  }

  /** Canonical component lists stay canonical when joined. */
  lemma NormalAppend(a: seq<string>, b: seq<string>)
    requires Normal(a) && Normal(b)
    ensures Normal(a + b)
  {
    forall k | 0 <= k < |a + b| ensures (a + b)[k] != "" && (a + b)[k] != "." && (a + b)[k] != ".." {
      if k >= |a| {
        assert (a + b)[k] == b[k - |a|];
      }
    }
  }

  /** `p / q`: an absolute right operand replaces the left one. */
  function Div(p: Path, q: Path): Path {
    if q.absolute then q else Path(p.absolute, p.parts + q.parts)
  }

  /** Lexical normalisation: empty and `.` components vanish, `..` removes the
      component before it and stays put at the root. */
  function Normalize(parts: seq<string>): (r: seq<string>)
    ensures Normal(r)
    ensures |r| <= |parts|
  {
    if parts == [] then []
    else
      var done, last := Normalize(parts[..|parts| - 1]), parts[|parts| - 1];
      if last == "" || last == "." then done
      else if last == ".." then (if done == [] then [] else done[..|done| - 1])
      else done + [last]
  }

  /** Normalisation leaves a normal component list as it is. */
  lemma {:induction false} NormalizeNormal(parts: seq<string>)
    requires Normal(parts)
    ensures Normalize(parts) == parts
  {
    if parts != [] {
      var front := parts[..|parts| - 1];
      assert Normal(front) by {
        forall k | 0 <= k < |front| ensures front[k] != "" && front[k] != "." && front[k] != ".." {
          assert front[k] == parts[k];
        }
      }
      NormalizeNormal(front);
      assert parts == front + [parts[|parts| - 1]];
    }
  }

  /** `p.resolve()` with symlinks left out: made absolute against the working
      directory `cwd`, then normalised. */
  function Resolve(cwd: seq<string>, p: Path): (r: Path)
    ensures r.absolute && Normal(r.parts)
  {
    Path(true, Normalize(if p.absolute then p.parts else cwd + p.parts))
  }

  /** `resolve()` raises `ValueError` on a component with an embedded NUL. */
  predicate ResolveRaises(p: Path) {
    exists k :: 0 <= k < |p.parts| && '\0' in p.parts[k]
  }

  /** `p.parent` */
  function Parent(p: Path): Path {
    if p.parts == [] then p else Path(p.absolute, p.parts[..|p.parts| - 1])
  }

  /** `p.name` */
  function Name(p: Path): string {
    if p.parts == [] then "" else p.parts[|p.parts| - 1]
  }

  /** `Path(name).suffix`: from the last `.` on, unless that dot starts the
      name or ends it. */
  function Suffix(name: string): (r: string)
    ensures r == "" || (r[0] == '.' && EndsWith(name, r))
  {
    var i := LastIndexOf(name, '.');
    if 0 < i < |name| - 1 then name[i..] else ""
  }

  /** The suffix of `a.b`, when `b` holds no dot and neither part is empty. */
  lemma SuffixAfterDot(a: string, b: string)
    requires a != "" && b != "" && '.' !in b
    ensures Suffix(a + ['.'] + b) == ['.'] + b
  {
    var s := a + ['.'] + b;
    LastIndexOfAt(a, '.', b);
    assert 0 < |a| < |s| - 1;
    assert s[|a|..] == ['.'] + b by {
      forall k | 0 <= k < |s| - |a| ensures s[|a|..][k] == (['.'] + b)[k] {
      }
    }
  }

  /** `Path(name).stem` */
  function Stem(name: string): string {
    var i := LastIndexOf(name, '.');
    if 0 < i < |name| - 1 then name[..i] else name
  }

  /** A name is its stem followed by its suffix. */
  lemma StemSuffix(name: string)
    ensures Stem(name) + Suffix(name) == name
  {
  }

  /** `p.relative_to(base)`: `None` stands for the `ValueError` raised when
      `base`'s components do not begin `p`'s. */
  function RelativeTo(p: Path, base: Path): (r: Option<Path>)
    ensures r.Some? ==> !r.value.absolute && base.parts + r.value.parts == p.parts
  {
    if p.absolute == base.absolute && |base.parts| <= |p.parts| && p.parts[..|base.parts|] == base.parts
    then Some(Path(false, p.parts[|base.parts|..]))
    else None
  }
}
