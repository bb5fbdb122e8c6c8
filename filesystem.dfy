/** The filesystem as a value: a map from absolute component lists to what
    sits there. `exists()`, `is_dir()`, `iterdir()`/`glob()` and
    `mkdir(parents=True, exist_ok=True)` are read off or applied to it. */
module FileSystem {
  import opened Outcomes
  import opened Paths

  datatype Node = Dir | File

  type FileTree = map<seq<string>, Node>

  /** A name a directory entry can have on POSIX. */
  predicate ValidName(n: string) {
    n != "" && n != "." && n != ".." && '/' !in n && '\0' !in n
  }

  /** The parent of a non-root entry. */
  function Up(k: seq<string>): seq<string>
    requires k != []
  {
    k[..|k| - 1]
  }

  /** The entry called `n` inside `dir`. */
  function Within(dir: seq<string>, n: string): seq<string> {
    dir + [n]
  }

  /** A real tree: the root is a directory, and every other entry has a valid
      name and sits in a directory. */
  ghost predicate Valid(fs: FileTree) {
    && [] in fs && fs[[]] == Dir
    && forall k, n :: Within(k, n) in fs ==> ValidName(n) && k in fs && fs[k] == Dir
  }

  /** The parent of an entry of a real tree is a directory. */
  lemma ParentOf(fs: FileTree, k: seq<string>)
    requires Valid(fs) && k in fs && k != []
    ensures ValidName(k[|k| - 1]) && Up(k) in fs && fs[Up(k)] == Dir
  {
    assert Within(Up(k), k[|k| - 1]) == k;
  }

  /** Every proper prefix of an entry is a directory. */
  lemma {:induction false} Ancestors(fs: FileTree, k: seq<string>, j: nat)
    requires Valid(fs) && k in fs && j < |k|
    ensures k[..j] in fs && fs[k[..j]] == Dir
    decreases |k|
  {
    ParentOf(fs, k);
    if j < |k| - 1 {
      Ancestors(fs, Up(k), j);
      assert Up(k)[..j] == k[..j];
    }
  }

  /** How the operating system walks the components `rest` from the directory
      `cur`: each step needs a directory, `..` goes to the parent (and stays at
      the root), empty and `.` components stay; the last component only has to
      exist. */
  function Lookup(fs: FileTree, cur: seq<string>, rest: seq<string>): (r: Option<seq<string>>)
    ensures r.Some? ==> r.value in fs
    decreases |rest|
  {
    if rest == [] then (if cur in fs then Some(cur) else None)
    else if cur !in fs || fs[cur] != Dir then None
    else if rest[0] == "" || rest[0] == "." then Lookup(fs, cur, rest[1..])
    else if rest[0] == ".." then Lookup(fs, if cur == [] then [] else Up(cur), rest[1..])
    else Lookup(fs, cur + [rest[0]], rest[1..])
  }

  /** Where the walk for `p` starts: the root or the working directory. */
  function Start(cwd: seq<string>, p: Path): seq<string> {
    if p.absolute then [] else cwd
  }

  /** `p.exists()` */
  predicate Exists(fs: FileTree, cwd: seq<string>, p: Path) {
    Lookup(fs, Start(cwd, p), p.parts).Some?
  }

  /** `p.is_dir()` */
  predicate IsDir(fs: FileTree, cwd: seq<string>, p: Path) {
    var r := Lookup(fs, Start(cwd, p), p.parts);
    r.Some? && fs[r.value] == Dir
  }

  /** `open(p)` for reading succeeds: the walk ends at a file. */
  predicate IsFile(fs: FileTree, cwd: seq<string>, p: Path) {
    var r := Lookup(fs, Start(cwd, p), p.parts);
    r.Some? && fs[r.value] == File
  }

  /** Walking `a + b` is walking `a` and then `b` from where `a` ended. */
  lemma {:induction false} LookupAppend(fs: FileTree, cur: seq<string>, a: seq<string>, b: seq<string>)
    ensures Lookup(fs, cur, a + b) == match Lookup(fs, cur, a) case None => None case Some(x) => Lookup(fs, x, b)
    decreases |a|
  {
    if a != [] {
      assert (a + b)[0] == a[0] && (a + b)[1..] == a[1..] + b;
      if cur in fs && fs[cur] == Dir {
        var next := if a[0] == "" || a[0] == "." then cur
                    else if a[0] == ".." then (if cur == [] then [] else Up(cur))
                    else cur + [a[0]];
        LookupAppend(fs, next, a[1..], b);
      }
    } else {
      assert a + b == b;
    }
  }

  /** On a real tree, walking normal components is a plain membership test. */
  lemma {:induction false} LookupNormal(fs: FileTree, cur: seq<string>, rest: seq<string>)
    requires Valid(fs) && Normal(rest) && cur in fs && (rest != [] ==> fs[cur] == Dir)
    ensures Lookup(fs, cur, rest) == if cur + rest in fs then Some(cur + rest) else None
    decreases |rest|
  {
    if rest != [] {
      var next, tail := cur + [rest[0]], rest[1..];
      assert cur + rest == next + tail;
      assert rest[0] != "" && rest[0] != "." && rest[0] != "..";
      assert Lookup(fs, cur, rest) == Lookup(fs, next, tail);
      assert Normal(tail) by {
        forall k | 0 <= k < |tail| ensures tail[k] != "" && tail[k] != "." && tail[k] != ".." {
          assert tail[k] == rest[k + 1];
        }
      }
      if next in fs && (tail != [] ==> fs[next] == Dir) {
        LookupNormal(fs, next, tail);
      } else if tail == [] {
        assert next + tail == next;
      } else {
        assert Lookup(fs, next, tail) == None;
        if next + tail in fs {
          assert (next + tail)[..|next|] == next;
          Ancestors(fs, next + tail, |next|);
        }
      }
    } else {
      assert cur + rest == cur;
    }
  }

  /** `mkdir(parents=True, exist_ok=True)` on the absolute components `t`:
      `None` stands for the exception raised when an entry on the way, or `t`
      itself, is a file, or a name is not valid. */
  function Mkdir(fs: FileTree, t: seq<string>): (r: Option<FileTree>)
    ensures r.Some? ==> t in r.value && r.value[t] == Dir
    ensures r.Some? ==> forall k :: k in fs ==> k in r.value && r.value[k] == fs[k]
    ensures r.Some? ==> forall k :: k in r.value && k !in fs ==> |k| <= |t| && k == t[..|k|]
    decreases |t|
  {
    if t in fs then (if fs[t] == Dir then Some(fs) else None)
    else if t == [] then Some(fs[t := Dir])
    else if !ValidName(t[|t| - 1]) then None
    else match Mkdir(fs, Up(t))
      case None => None
      case Some(f) => Some(f[t := Dir])
  }

  /** Creating directories keeps the tree real. */
  lemma {:induction false} MkdirValid(fs: FileTree, t: seq<string>)
    requires Valid(fs) && Mkdir(fs, t).Some?
    ensures Valid(Mkdir(fs, t).value)
    decreases |t|
  {
    if t !in fs && t != [] {
      MkdirValid(fs, Up(t));
      var f := Mkdir(fs, Up(t)).value;
      var g := f[t := Dir];
      forall k, n | Within(k, n) in g
        ensures ValidName(n) && k in g && g[k] == Dir
      {
        if Within(k, n) == t {
          assert k == Up(t);
        } else {
          assert Within(k, n) in f;
        }
      }
    }
  }

  /** `names` is what `iterdir()` yields for the directory `dir`: each entry
      once, nothing else. */
  ghost predicate Enumerates(fs: FileTree, dir: seq<string>, names: seq<string>) {
    && (forall i, j :: 0 <= i < j < |names| ==> names[i] != names[j])
    && (forall n :: n in names <==> Within(dir, n) in fs)
  }

  /** `listdir` tells the truth about every directory of `fs`. */
  ghost predicate Lists(fs: FileTree, listdir: seq<string> -> seq<string>) {
    forall k :: k in fs && fs[k] == Dir ==> Enumerates(fs, k, listdir(k))
  }
}
