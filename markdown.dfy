/** The Markdown router (`app/routers/markdown.py`): choosing the document
    root, confining a requested folder to it, breadcrumbs, the folder
    listing, and the checks made before a file is viewed or downloaded. */
module Markdown {
  import opened Outcomes
  import opened Strings
  import opened Paths
  import opened FileSystem
  import opened Search

  // ----- The document root: get_markdown_dir -----

  /** The locations tried, in order, for the working directory `cwd`. */
  function Candidates(cwd: seq<string>): seq<Path> {
    [ Path(true, cwd + ["pdf_uploads"]),
      Path(true, cwd + ["app", "pdfs"]),
      Resolve(cwd, Path(false, ["pdf_uploads"])),
      Resolve(cwd, Path(false, ["app", "pdfs"])) ]
  }

  /** The test a candidate has to pass: it exists and is a directory. */
  predicate Usable(fs: FileTree, cwd: seq<string>, p: Path) {
    Exists(fs, cwd, p) && IsDir(fs, cwd, p)
  }

  /** `Usable` as the test the candidate loop applies. */
  function UsableTest(fs: FileTree, cwd: seq<string>): Path -> bool {
    p => Usable(fs, cwd, p)
  }

  /** The position of the first usable candidate from `from` on, or
      `|cands|` when there is none. */
  function FirstUsable(fs: FileTree, cwd: seq<string>, cands: seq<Path>, from: nat): nat
    requires from <= |cands|
  {
    FirstWhere(UsableTest(fs, cwd), cands, from)
  }

  /** What `get_markdown_dir` returns and the filesystem it leaves behind:
      the first usable candidate, resolved; otherwise `cwd/pdf_uploads`,
      created with its parents. A failed `mkdir` escapes as a 500. */
  function MarkdownDir(fs: FileTree, cwd: seq<string>): (r: (Result<Path>, FileTree))
    ensures r.0.Err? ==> r.0.code == 500
  {
    var cands := Candidates(cwd);
    var k := FirstUsable(fs, cwd, cands, 0);
    if k < |cands| then (Ok(Resolve(cwd, cands[k])), fs)
    else match Mkdir(fs, Normalize(cwd + ["pdf_uploads"]))
      case None => (Err(500), fs)
      case Some(f) => (Ok(Resolve(cwd, Path(true, cwd + ["pdf_uploads"]))), f)
  }

  method GetMarkdownDir(fs: FileTree, cwd: seq<string>) returns (r: Result<Path>, fs': FileTree)
    ensures (r, fs') == MarkdownDir(fs, cwd)
    ensures r.Ok? ==> r.value.absolute && Normal(r.value.parts)
  {
    var possible := Candidates(cwd);
    var i := 0;
    while i < |possible|
      invariant 0 <= i <= |possible|
      invariant FirstUsable(fs, cwd, possible, i) == FirstUsable(fs, cwd, possible, 0)
    {
      var path := possible[i];
      if Exists(fs, cwd, path) && IsDir(fs, cwd, path) {
        return Ok(Resolve(cwd, path)), fs;
      }
      i := i + 1;
    }
    var made := Mkdir(fs, Normalize(cwd + ["pdf_uploads"]));
    if made.None? {
      return Err(500), fs;
    }
    return Ok(Resolve(cwd, Path(true, cwd + ["pdf_uploads"]))), made.value;
  }

  /** With a canonical working directory, every candidate is already its own
      resolution. */
  lemma CandidatesResolved(cwd: seq<string>, i: nat)
    requires Normal(cwd) && i < 4
    ensures Candidates(cwd)[i].absolute && Normal(Candidates(cwd)[i].parts)
    ensures Resolve(cwd, Candidates(cwd)[i]) == Candidates(cwd)[i]
  {
    NormalAppend(cwd, ["pdf_uploads"]);
    NormalAppend(cwd, ["app", "pdfs"]);
    NormalizeNormal(cwd + ["pdf_uploads"]);
    NormalizeNormal(cwd + ["app", "pdfs"]);
  }

  /** The root returned is a directory on the filesystem left behind, which is
      the old one plus at most the directories `mkdir` made. */
  lemma MarkdownDirIsDirectory(fs: FileTree, cwd: seq<string>)
    requires Valid(fs) && Normal(cwd)
    ensures Valid(MarkdownDir(fs, cwd).1) && fs.Keys <= MarkdownDir(fs, cwd).1.Keys
    ensures MarkdownDir(fs, cwd).0.Ok? ==>
      MarkdownDir(fs, cwd).0.value.absolute
      && IsDir(MarkdownDir(fs, cwd).1, cwd, MarkdownDir(fs, cwd).0.value)
  {
    var cands := Candidates(cwd);
    var k := FirstUsable(fs, cwd, cands, 0);
    FirstWhereIsFirst(UsableTest(fs, cwd), cands, 0);
    if k < |cands| {
      CandidatesResolved(cwd, k);
      assert MarkdownDir(fs, cwd) == (Ok(cands[k]), fs);
    } else {
      FallbackIsDirectory(fs, cwd);
    }
  }

  /** The fallback of `get_markdown_dir`: `cwd/pdf_uploads`, once made, is a
      directory. */
  lemma FallbackIsDirectory(fs: FileTree, cwd: seq<string>)
    requires Valid(fs) && Normal(cwd)
    ensures var t := cwd + ["pdf_uploads"];
      Normalize(t) == t && Resolve(cwd, Path(true, t)) == Path(true, t)
      && (Mkdir(fs, t).Some? ==> Valid(Mkdir(fs, t).value) && Usable(Mkdir(fs, t).value, cwd, Path(true, t)))
  {
    var t := cwd + ["pdf_uploads"];
    NormalAppend(cwd, ["pdf_uploads"]);
    NormalizeNormal(t);
    if Mkdir(fs, t).Some? {
      MkdirValid(fs, t);
      LookupNormal(Mkdir(fs, t).value, [], t);
      assert [] + t == t;
    }
  }

  /** Calling `get_markdown_dir` again on the filesystem the first call left
      behind gives the same root and creates nothing. */
  lemma MarkdownDirIdempotent(fs: FileTree, cwd: seq<string>)
    requires Valid(fs) && Normal(cwd)
    ensures MarkdownDir(fs, cwd).0.Ok? ==>
      MarkdownDir(MarkdownDir(fs, cwd).1, cwd) == MarkdownDir(fs, cwd)
  {
    var cands := Candidates(cwd);
    var k := FirstUsable(fs, cwd, cands, 0);
    if k == |cands| {
      var t := cwd + ["pdf_uploads"];
      FallbackIsDirectory(fs, cwd);
      if Mkdir(fs, t).Some? {
        var f := Mkdir(fs, t).value;
        assert MarkdownDir(fs, cwd) == (Ok(Path(true, t)), f);
        assert cands[0] == Path(true, t);
        assert FirstUsable(f, cwd, cands, 0) == 0;
      }
    }
  }

  // ----- Confinement: get_subfolder_path -----

  /** `get_subfolder_path(subfolder)` against the root `base` that
      `get_markdown_dir` returned: `base` itself for a missing or empty
      subfolder; otherwise `base / subfolder`, resolved, must pass the string
      prefix test (400) and then exist (404). A `ValueError` from `resolve()`
      is turned into 400 as well. */
  function SubfolderPath(fs: FileTree, cwd: seq<string>, base: Path, subfolder: Option<string>): (r: Result<Path>)
    ensures r.Err? ==> r.code == 400 || r.code == 404
    ensures subfolder.None? || subfolder.value == "" ==> r == Ok(base)
    ensures r.Ok? && subfolder.Some? && subfolder.value != "" ==>
      r.value.absolute && Normal(r.value.parts)
      && StartsWith(Str(r.value), Str(base)) && Exists(fs, cwd, r.value)
  {
    if subfolder.None? || subfolder.value == "" then Ok(base)
    else
      var joined := Div(base, Parse(subfolder.value));
      if ResolveRaises(joined) then Err(400)
      else
        var resolved := Resolve(cwd, joined);
        if !StartsWith(Str(resolved), Str(base)) then Err(400)
        else if !Exists(fs, cwd, resolved) then Err(404)
        else Ok(resolved)
  }

  /** The resolved and prefix-checked path `SubfolderPath` tests for
      existence, when the request gets that far. */
  function Resolved(cwd: seq<string>, base: Path, subfolder: string): Path {
    Resolve(cwd, Div(base, Parse(subfolder)))
  }

  /** The containment test comes first: a path that fails it is refused with
      400 whatever the filesystem holds, so with 400 also when it does not
      exist; one that passes it but does not exist gets 404. */
  lemma ContainmentBeforeExistence(fs: FileTree, cwd: seq<string>, base: Path, subfolder: string)
    requires subfolder != ""
    ensures !StartsWith(Str(Resolved(cwd, base, subfolder)), Str(base)) ==>
      SubfolderPath(fs, cwd, base, Some(subfolder)) == Err(400)
    ensures (!ResolveRaises(Div(base, Parse(subfolder)))
             && StartsWith(Str(Resolved(cwd, base, subfolder)), Str(base))
             && !Exists(fs, cwd, Resolved(cwd, base, subfolder))) ==>
      SubfolderPath(fs, cwd, base, Some(subfolder)) == Err(404)
    ensures SubfolderPath(fs, cwd, base, Some(subfolder)).Ok? <==>
      !ResolveRaises(Div(base, Parse(subfolder)))
      && StartsWith(Str(Resolved(cwd, base, subfolder)), Str(base))
      && Exists(fs, cwd, Resolved(cwd, base, subfolder))
  {
  }

  /** A subfolder with an embedded NUL makes `resolve()` raise; the handler
      reports that as 400 too. */
  lemma NulIsBadRequest(fs: FileTree, cwd: seq<string>, base: Path)
    ensures SubfolderPath(fs, cwd, base, Some("a\0b")) == Err(400)
  {
    var p := Parse("a\0b");
    assert Split("a\0b", '/') == ["a\0b"];
    assert p.parts == ["a\0b"];
    assert '\0' in Div(base, p).parts[|Div(base, p).parts| - 1];
  }

  /** Every absolute path whose components extend the root's components
      passes the string prefix test. */
  lemma ExtensionPassesPrefixTest(root: seq<string>, ext: seq<string>)
    ensures StartsWith(Str(Path(true, root + ext)), Str(Path(true, root)))
  {
    if root != [] && ext != [] {
      JoinWithConcat(root, ext, '/');
    } else if ext == [] {
      assert root + ext == root;
    }
  }

  /** The converse fails: the sibling `/x/docs-other` passes the test for the
      root `/x/docs` though its components do not extend the root's. */
  lemma SiblingPassesPrefixTest()
    ensures StartsWith(Str(Path(true, ["x", "docs-other"])), Str(Path(true, ["x", "docs"])))
    ensures !(["x", "docs"] <= ["x", "docs-other"])
  {
    JoinPair("x", "docs-other");
    JoinPair("x", "docs");
    assert ("/x/docs-other")[..7] == "/x/docs";
  }

  lemma JoinPair(a: string, b: string)
    ensures JoinWith([a, b], '/') == a + "/" + b
  {
    assert [a, b][..1] == [a];
  }

  lemma ParseSibling()
    ensures Parse("../docs-other") == Path(false, ["..", "docs-other"])
  {
    assert "../docs-other" == ".." + ['/'] + "docs-other";
    ParsePair("..", "docs-other");
  }

  lemma NormalizeSibling()
    ensures Normalize(["x", "docs", "..", "docs-other"]) == ["x", "docs-other"]
  {
    assert ["x"][..0] == [];
    assert Normalize(["x"]) == ["x"];
    assert ["x", "docs"][..1] == ["x"];
    assert Normalize(["x", "docs"]) == ["x", "docs"];
    assert ["x", "docs", ".."][..2] == ["x", "docs"];
    assert Normalize(["x", "docs", ".."]) == ["x"];
    assert ["x", "docs", "..", "docs-other"][..3] == ["x", "docs", ".."];
  }

  /** A root `/x/docs` with a sibling directory `/x/docs-other`. */
  function SiblingTree(): FileTree {
    map[[] := Dir, ["x"] := Dir, ["x", "docs"] := Dir, ["x", "docs-other"] := Dir]
  }

  lemma SiblingExists()
    ensures Exists(SiblingTree(), ["x"], Path(true, ["x", "docs-other"]))
  {
    var fs := SiblingTree();
    assert Lookup(fs, ["x", "docs-other"], []) == Some(["x", "docs-other"]);
    assert ["x"] + ["docs-other"] == ["x", "docs-other"];
    assert ["x", "docs-other"][1..] == ["docs-other"];
    assert Lookup(fs, ["x"], ["docs-other"]) == Some(["x", "docs-other"]);
    assert [] + ["x"] == ["x"];
  }

  lemma SiblingJoined()
    ensures Div(Path(true, ["x", "docs"]), Parse("../docs-other")) == Path(true, ["x", "docs", "..", "docs-other"])
  {
    ParseSibling();
  }

  lemma SiblingResolved()
    ensures !ResolveRaises(Path(true, ["x", "docs", "..", "docs-other"]))
    ensures Resolve(["x"], Path(true, ["x", "docs", "..", "docs-other"])) == Path(true, ["x", "docs-other"])
  {
    assert '\0' !in "x" && '\0' !in "docs" && '\0' !in ".." && '\0' !in "docs-other";
    NormalizeSibling();
  }

  /** The same gap end to end: with `/x/docs` as the root, the folder
      `../docs-other` is admitted. */
  lemma SiblingFolderAdmitted()
    ensures SubfolderPath(SiblingTree(), ["x"], Path(true, ["x", "docs"]), Some("../docs-other"))
      == Ok(Path(true, ["x", "docs-other"]))
  {
    SiblingJoined();
    SiblingResolved();
    SiblingPassesPrefixTest();
    SiblingExists();
    ContainmentBeforeExistence(SiblingTree(), ["x"], Path(true, ["x", "docs"]), "../docs-other");
  }

  // ----- Breadcrumbs: create_breadcrumbs -----

  datatype Crumb = Crumb(name: string, path: string)

  /** The first crumb of every trail. */
  const Home := Crumb("Главная", "/")

  /** The listing URL a crumb's folder is appended to. */
  const FolderLink := "/markdown/?folder="

  /** The non-empty `/`-separated pieces of the folder, in order. */
  function FolderSegments(folder: Option<string>): (segs: seq<string>)
    ensures forall k :: 0 <= k < |segs| ==> segs[k] != "" && '/' !in segs[k]
  {
    if folder.None? || folder.value == "" then [] else Without(Split(folder.value, '/'), {""})
  }

  /** `Home`, then one crumb per segment, named after it and linking to the
      segments up to and including it, joined by `/`. */
  function TrailOf(segs: seq<string>): (t: seq<Crumb>)
    ensures |t| == |segs| + 1 && t[0] == Home
  {
    if segs == [] then [Home]
    else TrailOf(segs[..|segs| - 1]) + [Crumb(segs[|segs| - 1], FolderLink + JoinWith(segs, '/'))]
  }

  lemma TrailOfSnoc(segs: seq<string>, p: string)
    ensures TrailOf(segs + [p]) == TrailOf(segs) + [Crumb(p, FolderLink + JoinWith(segs + [p], '/'))]
  {
    assert (segs + [p])[..|segs|] == segs;
  }

  /** The breadcrumbs for the folder. */
  function Trail(folder: Option<string>): seq<Crumb> {
    TrailOf(FolderSegments(folder))
  }

  /** One step of the loop in `CreateBreadcrumbs`: an empty piece changes
      nothing, any other piece extends the trail and the joined folder. */
  lemma TrailStep(parts: seq<string>, i: nat)
    requires i < |parts|
    ensures var done, next := Without(parts[..i], {""}), Without(parts[..i + 1], {""});
      && (parts[i] == "" ==> next == done)
      && (parts[i] != "" ==>
            && TrailOf(next) == TrailOf(done) + [Crumb(parts[i], FolderLink + JoinWith(next, '/'))]
            && JoinWith(next, '/') == if JoinWith(done, '/') != "" then JoinWith(done, '/') + "/" + parts[i] else parts[i])
  {
    var done, part := Without(parts[..i], {""}), parts[i];
    WithoutStep(parts, i, {""});
    if part != "" {
      var next := done + [part];
      TrailOfSnoc(done, part);
      JoinWithSnoc(done, part, '/');
      if done != [] {
        assert done[|done| - 1] != "";
      }
    }
  }

  method CreateBreadcrumbs(folder: Option<string>) returns (breadcrumbs: seq<Crumb>)
    ensures breadcrumbs == Trail(folder)
  {
    breadcrumbs := [Home];
    if folder.None? || folder.value == "" {
      return;
    }
    var parts := Split(folder.value, '/');
    var currentPath := "";
    var i := 0;
    while i < |parts|
      invariant 0 <= i <= |parts|
      invariant breadcrumbs == TrailOf(Without(parts[..i], {""}))
      invariant currentPath == JoinWith(Without(parts[..i], {""}), '/')
    {
      var part := parts[i];
      TrailStep(parts, i);
      if part != "" {
        currentPath := if currentPath != "" then currentPath + "/" + part else part;
        breadcrumbs := breadcrumbs + [Crumb(part, FolderLink + currentPath)];
      }
      i := i + 1;
    }
    assert parts[..|parts|] == parts;
  }

  /** Crumb `k` of a non-empty trail is named after segment `k - 1` and links
      to the first `k` segments joined by `/`. */
  lemma {:induction false} TrailOfAt(segs: seq<string>, k: nat)
    requires 1 <= k <= |segs|
    ensures TrailOf(segs)[k] == Crumb(segs[k - 1], FolderLink + JoinWith(segs[..k], '/'))
    decreases |segs|
  {
    var front := segs[..|segs| - 1];
    if k < |segs| {
      TrailOfAt(front, k);
      assert front[..k] == segs[..k];
    } else {
      assert segs[..k] == segs;
    }
  }

  /** The trail starts at `Home` and has one more crumb than the folder has
      non-empty segments, so no folder gives just `Home`. */
  lemma TrailShape(folder: Option<string>)
    ensures |Trail(folder)| == 1 + |FolderSegments(folder)| && Trail(folder)[0] == Home
    ensures (folder.None? || folder.value == "") ==> Trail(folder) == [Home]
  {
  }

  /** Crumb `k` after `Home` is named after segment `k - 1` and links to the
      first `k` segments joined by `/`. */
  lemma TrailCrumb(folder: Option<string>, k: nat)
    requires 1 <= k < |Trail(folder)|
    ensures Trail(folder)[k].name == FolderSegments(folder)[k - 1]
    ensures Trail(folder)[k].path == FolderLink + JoinWith(FolderSegments(folder)[..k], '/')
  {
    TrailOfAt(FolderSegments(folder), k);
  }

  /** For a folder without empty pieces (no leading, trailing or doubled
      `/`) the last crumb links to the folder itself. */
  lemma TrailEndsAtFolder(folder: string)
    requires folder != "" && forall k :: 0 <= k < |Split(folder, '/')| ==> Split(folder, '/')[k] != ""
    ensures |Trail(Some(folder))| == |Split(folder, '/')| + 1
    ensures Trail(Some(folder))[|Trail(Some(folder))| - 1].path == FolderLink + folder
  {
    var parts := Split(folder, '/');
    WithoutNone(parts, {""});
    SplitJoin(folder, '/');
    assert FolderSegments(Some(folder)) == parts;
  }

  /** Each crumb's folder is the previous crumb's folder, a `/`, and its own
      name. */
  lemma TrailNested(folder: Option<string>, k: nat)
    requires 1 <= k < |Trail(folder)| - 1
    ensures Trail(folder)[k + 1].path == Trail(folder)[k].path + "/" + Trail(folder)[k + 1].name
  {
    TrailOfNested(FolderSegments(folder), k);
  }

  lemma {:induction false} TrailOfNested(segs: seq<string>, k: nat)
    requires 1 <= k < |segs|
    ensures TrailOf(segs)[k + 1].path == TrailOf(segs)[k].path + "/" + TrailOf(segs)[k + 1].name
    decreases |segs|
  {
    var front := segs[..|segs| - 1];
    if k + 1 < |segs| {
      TrailOfNested(front, k);
    } else {
      var t := TrailOf(front);
      assert TrailOf(segs)[k] == t[k];
      assert t == TrailOf(front[..|front| - 1]) + [Crumb(front[|front| - 1], FolderLink + JoinWith(front, '/'))];
      assert JoinWith(segs, '/') == JoinWith(front, '/') + "/" + segs[k];
    }
  }

  /** The folder in a crumb's link never starts with `/`. */
  lemma TrailLinksRelative(folder: Option<string>, k: nat)
    requires 1 <= k < |Trail(folder)|
    ensures |Trail(folder)[k].path| > |FolderLink| && Trail(folder)[k].path[|FolderLink|] != '/'
  {
    var segs := FolderSegments(folder);
    TrailOfAt(segs, k);
    JoinWithStartsWith(segs[..k], '/');
    assert segs[..k][0] == segs[0];
    assert segs[0][0] in segs[0];
  }

  lemma SplitCrumbExample()
    ensures Split("/a//b/", '/') == ["", "a", "", "b", ""]
  {
    assert "/a//b/" == "/a//b" + ['/'] + "";
    SplitSnoc("/a//b", "", '/');
    assert "/a//b" == "/a/" + ['/'] + "b";
    SplitSnoc("/a/", "b", '/');
    assert "/a/" == "/a" + ['/'] + "";
    SplitSnoc("/a", "", '/');
    assert "/a" == "" + ['/'] + "a";
    SplitTwo("", "a", '/');
  }

  lemma WithoutCrumbExample()
    ensures Without(["", "a", "", "b", ""], {""}) == ["a", "b"]
  {
    var parts := ["", "a", "", "b", ""];
    assert parts[..4] == ["", "a", "", "b"];
    assert parts[..4][..3] == ["", "a", ""];
    assert parts[..4][..3][..2] == ["", "a"];
    assert parts[..4][..3][..2][..1] == [""];
    assert [""][..0] == [];
    assert Without([""], {""}) == [];
    assert Without(["", "a"], {""}) == ["a"];
    assert Without(["", "a", ""], {""}) == ["a"];
    assert Without(["", "a", "", "b"], {""}) == ["a", "b"];
  }

  /** Empty segments are skipped: `/a//b/` gives the crumbs `a` and `a/b`. */
  lemma TrailExample()
    ensures Trail(Some("/a//b/")) == [Home, Crumb("a", FolderLink + "a"), Crumb("b", FolderLink + "a/b")]
  {
    SplitCrumbExample();
    WithoutCrumbExample();
    assert ["a", "b"][..1] == ["a"];
    assert JoinWith(["a", "b"], '/') == "a/b";
  }

  // ----- The folder listing: list_markdown_files -----

  /** One row of the listing: the child's name and its path relative to the
      root. */
  datatype Entry = Entry(name: string, path: string)

  /** The `directories` and `markdown_files` lists. */
  datatype Partitioned = Partitioned(directories: seq<Entry>, files: seq<Entry>)

  /** `dir / name` for a child `name` of `dir`. */
  function Child(dir: Path, name: string): Path {
    Path(dir.absolute, dir.parts + [name])
  }

  /** The listing's file test: the lower-cased suffix is `.md` or `.markdown`. */
  predicate IsMarkdownName(name: string) {
    Lower(Suffix(name)) == ".md" || Lower(Suffix(name)) == ".markdown"
  }

  /** `str(p.relative_to(root)).replace("\\", "/")`; `None` when
      `relative_to` raises. */
  function RelPath(root: Path, p: Path): (r: Option<string>)
    ensures r.Some? ==> '\\' !in r.value
  {
    match RelativeTo(p, root)
    case None => None
    case Some(rel) => Some(ReplaceChar(Str(rel), '\\', '/'))
  }

  /** The two lists the loop over the children `names` (in enumeration order)
      builds before sorting. A `ValueError` from `relative_to` escapes as
      500. */
  function Partition(fs: FileTree, cwd: seq<string>, root: Path, dir: Path, names: seq<string>): (r: Result<Partitioned>)
    ensures r.Err? ==> r.code == 500
    decreases |names|
  {
    if names == [] then Ok(Partitioned([], []))
    else match Partition(fs, cwd, root, dir, names[..|names| - 1])
      case Err(c) => Err(c)
      case Ok(p) => Classify(fs, cwd, root, dir, p, names[|names| - 1])
  }

  /** One turn of the loop: a directory goes to `directories` whatever its
      name, else a Markdown-named child to `files`, else nowhere. */
  function Classify(fs: FileTree, cwd: seq<string>, root: Path, dir: Path, p: Partitioned, name: string): (r: Result<Partitioned>)
    ensures r.Err? ==> r.code == 500
  {
    var child := Child(dir, name);
    if IsDir(fs, cwd, child) then
      match RelPath(root, child)
      case None => Err(500)
      case Some(rel) => Ok(Partitioned(p.directories + [Entry(name, rel)], p.files))
    else if IsMarkdownName(name) then
      match RelPath(root, child)
      case None => Err(500)
      case Some(rel) => Ok(Partitioned(p.directories, p.files + [Entry(name, rel)]))
    else Ok(p)
  }

  lemma PartitionStep(fs: FileTree, cwd: seq<string>, root: Path, dir: Path, names: seq<string>, i: nat)
    requires i < |names| && Partition(fs, cwd, root, dir, names[..i]).Ok?
    ensures Partition(fs, cwd, root, dir, names[..i + 1])
      == Classify(fs, cwd, root, dir, Partition(fs, cwd, root, dir, names[..i]).value, names[i])
  {
    assert names[..i + 1][..i] == names[..i];
  }

  /** Once the loop has raised, the whole listing has. */
  lemma {:induction false} PartitionErrSticks(fs: FileTree, cwd: seq<string>, root: Path, dir: Path, names: seq<string>, i: nat)
    requires i <= |names| && Partition(fs, cwd, root, dir, names[..i]).Err?
    ensures Partition(fs, cwd, root, dir, names) == Partition(fs, cwd, root, dir, names[..i])
    decreases |names| - i
  {
    if i < |names| {
      assert names[..i + 1][..i] == names[..i];
      PartitionErrSticks(fs, cwd, root, dir, names, i + 1);
    } else {
      assert names[..i] == names;
    }
  }

  method PartitionChildren(fs: FileTree, cwd: seq<string>, root: Path, dir: Path, names: seq<string>)
    returns (r: Result<Partitioned>)
    ensures r == Partition(fs, cwd, root, dir, names)
  {
    var directories: seq<Entry> := [];
    var markdownFiles: seq<Entry> := [];
    var i := 0;
    while i < |names|
      invariant 0 <= i <= |names|
      invariant Partition(fs, cwd, root, dir, names[..i]) == Ok(Partitioned(directories, markdownFiles))
    {
      var name := names[i];
      var filePath := Child(dir, name);
      PartitionStep(fs, cwd, root, dir, names, i);
      if IsDir(fs, cwd, filePath) {
        var relPath := RelPath(root, filePath);
        if relPath.None? {
          PartitionErrSticks(fs, cwd, root, dir, names, i + 1);
          return Err(500);
        }
        directories := directories + [Entry(name, relPath.value)];
      } else if IsMarkdownName(name) {
        var relPath := RelPath(root, filePath);
        if relPath.None? {
          PartitionErrSticks(fs, cwd, root, dir, names, i + 1);
          return Err(500);
        }
        markdownFiles := markdownFiles + [Entry(name, relPath.value)];
      }
      i := i + 1;
    }
    assert names[..|names|] == names;
    r := Ok(Partitioned(directories, markdownFiles));
  }

  /** A `directories` row: a directory child, with its path relative to the
      root. */
  predicate ListedDir(fs: FileTree, cwd: seq<string>, root: Path, dir: Path, names: seq<string>, e: Entry) {
    e.name in names && IsDir(fs, cwd, Child(dir, e.name)) && RelPath(root, Child(dir, e.name)) == Some(e.path)
  }

  /** A `markdown_files` row: a child that is not a directory and has a
      Markdown suffix, with its path relative to the root. */
  predicate ListedFile(fs: FileTree, cwd: seq<string>, root: Path, dir: Path, names: seq<string>, e: Entry) {
    e.name in names && !IsDir(fs, cwd, Child(dir, e.name)) && IsMarkdownName(e.name)
    && RelPath(root, Child(dir, e.name)) == Some(e.path)
  }

  /** What one turn of the loop adds. */
  lemma ClassifyShape(fs: FileTree, cwd: seq<string>, root: Path, dir: Path, p: Partitioned, name: string)
    requires Classify(fs, cwd, root, dir, p, name).Ok?
    ensures var q, child := Classify(fs, cwd, root, dir, p, name).value, Child(dir, name);
      && (IsDir(fs, cwd, child) ==>
            RelPath(root, child).Some? && q == Partitioned(p.directories + [Entry(name, RelPath(root, child).value)], p.files))
      && (!IsDir(fs, cwd, child) && IsMarkdownName(name) ==>
            RelPath(root, child).Some? && q == Partitioned(p.directories, p.files + [Entry(name, RelPath(root, child).value)]))
      && (!IsDir(fs, cwd, child) && !IsMarkdownName(name) ==> q == p)
  {
  }

  /** Only directory children are in `directories` (so a directory called
      `x.md` is listed as a directory), and only Markdown-named
      non-directories are in `files`, each with its path relative to the
      root. */
  lemma {:induction false} PartitionSound(fs: FileTree, cwd: seq<string>, root: Path, dir: Path, names: seq<string>)
    requires Partition(fs, cwd, root, dir, names).Ok?
    ensures forall e :: e in Partition(fs, cwd, root, dir, names).value.directories ==> ListedDir(fs, cwd, root, dir, names, e)
    ensures forall e :: e in Partition(fs, cwd, root, dir, names).value.files ==> ListedFile(fs, cwd, root, dir, names, e)
  {
    PartitionSoundDirs(fs, cwd, root, dir, names);
    PartitionSoundFiles(fs, cwd, root, dir, names);
  }

  lemma {:induction false} PartitionSoundDirs(fs: FileTree, cwd: seq<string>, root: Path, dir: Path, names: seq<string>)
    requires Partition(fs, cwd, root, dir, names).Ok?
    ensures forall e :: e in Partition(fs, cwd, root, dir, names).value.directories ==> ListedDir(fs, cwd, root, dir, names, e)
    decreases |names|
  {
    if names != [] {
      var front, name := names[..|names| - 1], names[|names| - 1];
      PartitionSoundDirs(fs, cwd, root, dir, front);
      var p0 := Partition(fs, cwd, root, dir, front).value;
      var p := Partition(fs, cwd, root, dir, names).value;
      assert Partition(fs, cwd, root, dir, names) == Classify(fs, cwd, root, dir, p0, name);
      ClassifyShape(fs, cwd, root, dir, p0, name);
      forall e | e in p.directories ensures ListedDir(fs, cwd, root, dir, names, e) {
        if e in p0.directories {
          assert ListedDir(fs, cwd, root, dir, front, e);
          assert e.name in names;
        }
      }
    }
  }

  lemma {:induction false} PartitionSoundFiles(fs: FileTree, cwd: seq<string>, root: Path, dir: Path, names: seq<string>)
    requires Partition(fs, cwd, root, dir, names).Ok?
    ensures forall e :: e in Partition(fs, cwd, root, dir, names).value.files ==> ListedFile(fs, cwd, root, dir, names, e)
    decreases |names|
  {
    if names != [] {
      var front, name := names[..|names| - 1], names[|names| - 1];
      PartitionSoundFiles(fs, cwd, root, dir, front);
      var p0 := Partition(fs, cwd, root, dir, front).value;
      var p := Partition(fs, cwd, root, dir, names).value;
      assert Partition(fs, cwd, root, dir, names) == Classify(fs, cwd, root, dir, p0, name);
      ClassifyShape(fs, cwd, root, dir, p0, name);
      forall e | e in p.files ensures ListedFile(fs, cwd, root, dir, names, e) {
        if e in p0.files {
          assert ListedFile(fs, cwd, root, dir, front, e);
          assert e.name in names;
        }
      }
    }
  }

  /** No path in the listing holds a backslash. */
  lemma PartitionNoBackslash(fs: FileTree, cwd: seq<string>, root: Path, dir: Path, names: seq<string>)
    requires Partition(fs, cwd, root, dir, names).Ok?
    ensures forall e :: e in Partition(fs, cwd, root, dir, names).value.directories + Partition(fs, cwd, root, dir, names).value.files ==>
      '\\' !in e.path
  {
    PartitionSound(fs, cwd, root, dir, names);
  }

  /** Every directory child is in `directories`, and every non-directory
      child with a Markdown suffix is in `files`. */
  lemma PartitionComplete(fs: FileTree, cwd: seq<string>, root: Path, dir: Path, names: seq<string>)
    requires Partition(fs, cwd, root, dir, names).Ok?
    ensures forall n :: n in names && IsDir(fs, cwd, Child(dir, n)) ==>
      exists e :: e in Partition(fs, cwd, root, dir, names).value.directories && e.name == n
    ensures forall n :: n in names && !IsDir(fs, cwd, Child(dir, n)) && IsMarkdownName(n) ==>
      exists e :: e in Partition(fs, cwd, root, dir, names).value.files && e.name == n
  {
    forall n | n in names && IsDir(fs, cwd, Child(dir, n))
      ensures exists e :: e in Partition(fs, cwd, root, dir, names).value.directories && e.name == n
    {
      PartitionListsDir(fs, cwd, root, dir, names, n);
    }
    forall n | n in names && !IsDir(fs, cwd, Child(dir, n)) && IsMarkdownName(n)
      ensures exists e :: e in Partition(fs, cwd, root, dir, names).value.files && e.name == n
    {
      PartitionListsFile(fs, cwd, root, dir, names, n);
    }
  }

  /** One turn of the loop keeps what is listed and lists the new child
      where it belongs. */
  lemma ClassifyKeeps(fs: FileTree, cwd: seq<string>, root: Path, dir: Path, p: Partitioned, name: string)
    requires Classify(fs, cwd, root, dir, p, name).Ok?
    ensures var q := Classify(fs, cwd, root, dir, p, name).value;
      && (forall e :: e in p.directories ==> e in q.directories)
      && (forall e :: e in p.files ==> e in q.files)
      && (IsDir(fs, cwd, Child(dir, name)) ==> exists e :: e in q.directories && e.name == name)
      && (!IsDir(fs, cwd, Child(dir, name)) && IsMarkdownName(name) ==> exists e :: e in q.files && e.name == name)
  {
    var q := Classify(fs, cwd, root, dir, p, name).value;
    ClassifyShape(fs, cwd, root, dir, p, name);
    if IsDir(fs, cwd, Child(dir, name)) {
      assert q.directories[|q.directories| - 1].name == name;
    } else if IsMarkdownName(name) {
      assert q.files[|q.files| - 1].name == name;
    }
  }

  lemma {:induction false} PartitionListsDir(fs: FileTree, cwd: seq<string>, root: Path, dir: Path, names: seq<string>, n: string)
    requires Partition(fs, cwd, root, dir, names).Ok? && n in names && IsDir(fs, cwd, Child(dir, n))
    ensures exists e :: e in Partition(fs, cwd, root, dir, names).value.directories && e.name == n
    decreases |names|
  {
    var front, name := names[..|names| - 1], names[|names| - 1];
    var p0 := Partition(fs, cwd, root, dir, front).value;
    assert Partition(fs, cwd, root, dir, names) == Classify(fs, cwd, root, dir, p0, name);
    ClassifyKeeps(fs, cwd, root, dir, p0, name);
    if n != name {
      InFront(names, n);
      PartitionListsDir(fs, cwd, root, dir, front, n);
    }
  }

  lemma {:induction false} PartitionListsFile(fs: FileTree, cwd: seq<string>, root: Path, dir: Path, names: seq<string>, n: string)
    requires Partition(fs, cwd, root, dir, names).Ok? && n in names
    requires !IsDir(fs, cwd, Child(dir, n)) && IsMarkdownName(n)
    ensures exists e :: e in Partition(fs, cwd, root, dir, names).value.files && e.name == n
    decreases |names|
  {
    var front, name := names[..|names| - 1], names[|names| - 1];
    var p0 := Partition(fs, cwd, root, dir, front).value;
    assert Partition(fs, cwd, root, dir, names) == Classify(fs, cwd, root, dir, p0, name);
    ClassifyKeeps(fs, cwd, root, dir, p0, name);
    if n != name {
      InFront(names, n);
      PartitionListsFile(fs, cwd, root, dir, front, n);
    }
  }

  /** A folder whose components extend the root's always lists: every child
      has a path relative to the root. */
  lemma {:induction false} PartitionUnderRoot(fs: FileTree, cwd: seq<string>, root: Path, dir: Path, names: seq<string>)
    requires dir.absolute == root.absolute && root.parts <= dir.parts
    ensures Partition(fs, cwd, root, dir, names).Ok?
    decreases |names|
  {
    if names != [] {
      PartitionUnderRoot(fs, cwd, root, dir, names[..|names| - 1]);
      var child := Child(dir, names[|names| - 1]);
      assert child.parts[..|root.parts|] == root.parts;
    }
  }

  /** The prefix gap again: listing the admitted sibling `/x/docs-other` of
      the root `/x/docs` fails with 500 as soon as it holds a directory,
      because that child has no path relative to the root. */
  lemma SiblingListingFails()
    ensures var fs := SiblingTree()[["x", "docs-other", "a"] := Dir];
      Partition(fs, ["x"], Path(true, ["x", "docs"]), Path(true, ["x", "docs-other"]), ["a"]) == Err(500)
  {
    var fs := SiblingTree()[["x", "docs-other", "a"] := Dir];
    var child := Path(true, ["x", "docs-other", "a"]);
    assert Child(Path(true, ["x", "docs-other"]), "a") == child;
    assert Lookup(fs, ["x", "docs-other", "a"], []) == Some(["x", "docs-other", "a"]);
    assert ["x", "docs-other"] + ["a"] == ["x", "docs-other", "a"];
    assert Lookup(fs, ["x", "docs-other"], ["a"]) == Some(["x", "docs-other", "a"]);
    assert ["x"] + ["docs-other"] == ["x", "docs-other"];
    assert ["x", "docs-other", "a"][1..] == ["docs-other", "a"] && ["docs-other", "a"][1..] == ["a"];
    assert Lookup(fs, ["x"], ["docs-other", "a"]) == Some(["x", "docs-other", "a"]);
    assert [] + ["x"] == ["x"];
    assert IsDir(fs, ["x"], child);
    assert child.parts[..2] != ["x", "docs"] by {
      assert child.parts[..2][1] == "docs-other";
    }
    assert ["a"][..0] == [];
  }

  // ----- Sorting by lower-cased name: list.sort(key=...) -----

  /** The sort key: the lower-cased name. */
  function Key(e: Entry): string {
    Lower(e.name)
  }

  predicate SortedByName(es: seq<Entry>) {
    forall i, j :: 0 <= i < j < |es| ==> LexLe(Key(es[i]), Key(es[j]))
  }

  /** No entry of `es` has a key below `e`'s. */
  predicate NotBelow(e: Entry, es: seq<Entry>) {
    forall y :: y in es ==> LexLe(Key(e), Key(y))
  }

  /** A sorted list stays sorted under a new head whose key is not above any
      of its keys. */
  lemma ConsSorted(x: Entry, es: seq<Entry>)
    requires SortedByName(es) && NotBelow(x, es)
    ensures SortedByName([x] + es)
  {
    var r := [x] + es;
    forall i, j | 0 <= i < j < |r| ensures LexLe(Key(r[i]), Key(r[j])) {
      assert r[j] == es[j - 1];
      if i > 0 {
        assert r[i] == es[i - 1];
      }
    }
  }

  lemma HeadNotBelow(e: Entry, es: seq<Entry>)
    requires SortedByName(es) && es != [] && LexLe(Key(e), Key(es[0]))
    ensures NotBelow(e, es) && SortedByName([e] + es)
  {
    forall y | y in es ensures LexLe(Key(e), Key(y)) {
      var j :| 0 <= j < |es| && es[j] == y;
      if j > 0 {
        LexLeTransitive(Key(e), Key(es[0]), Key(es[j]));
      }
    }
    ConsSorted(e, es);
  }

  /** The head of a sorted list is not above anything inserted behind it. */
  lemma HeadStaysFirst(x: Entry, tail: seq<Entry>, e: Entry, rest: seq<Entry>)
    requires SortedByName([x] + tail) && LexLe(Key(x), Key(e))
    requires multiset(rest) == multiset(tail) + multiset{e}
    ensures NotBelow(x, rest)
  {
    var s := [x] + tail;
    forall y | y in rest ensures LexLe(Key(x), Key(y)) {
      assert y in multiset(rest);
      if y != e {
        assert y in multiset(tail);
        var j :| 0 <= j < |tail| && tail[j] == y;
        assert s[0] == x && s[j + 1] == y;
      }
    }
  }

  /** `e` inserted before the first entry whose key is not below its own,
      so before any entries with an equal key. `SortByName` inserts each
      head into the already sorted rest, so entries with equal keys keep
      their input order. */
  function InsertByName(e: Entry, es: seq<Entry>): (r: seq<Entry>)
    requires SortedByName(es)
    ensures SortedByName(r) && multiset(r) == multiset(es) + multiset{e}
  {
    if es == [] then [e]
    else if LexLe(Key(e), Key(es[0])) then
      HeadNotBelow(e, es);
      assert es == [es[0]] + es[1..];
      [e] + es
    else
      assert es == [es[0]] + es[1..];
      var rest := InsertByName(e, es[1..]);
      LexLeTotal(Key(e), Key(es[0]));
      HeadStaysFirst(es[0], es[1..], e, rest);
      ConsSorted(es[0], rest);
      [es[0]] + rest
  }

  /** `sorted(es, key=lambda x: x["name"].lower())`: ordered by lower-cased
      name and a permutation of `es`. */
  function SortByName(es: seq<Entry>): (r: seq<Entry>)
    ensures SortedByName(r) && multiset(r) == multiset(es)
  {
    if es == [] then []
    else
      assert es == [es[0]] + es[1..];
      InsertByName(es[0], SortByName(es[1..]))
  }

  // ----- The listing handler: list_markdown_files -----

  /** What the listing page is given. */
  datatype Listing = Listing(markdownFiles: seq<Entry>, directories: seq<Entry>, currentFolder: string, breadcrumbs: seq<Crumb>)

  /** `folder or ""` */
  function CurrentFolder(folder: Option<string>): string {
    if folder.None? then "" else folder.value
  }

  /** The listing for `folder` and the filesystem left behind; `listdir`
      gives the order in which a directory's children are enumerated. The
      root is looked up once: looking it up again on the filesystem the first
      lookup left behind gives the same root (`MarkdownDirIdempotent`). A
      folder that exists but is not a directory cannot be enumerated: 500. */
  function ListingOf(fs: FileTree, cwd: seq<string>, folder: Option<string>, listdir: seq<string> -> seq<string>)
    : (r: (Result<Listing>, FileTree))
    ensures r.0.Err? ==> r.0.code in {400, 404, 500}
  {
    var (root, fs1) := MarkdownDir(fs, cwd);
    if root.Err? then (Err(root.code), fs1)
    else match SubfolderPath(fs1, cwd, root.value, folder)
      case Err(c) => (Err(c), fs1)
      case Ok(current) =>
        if !IsDir(fs1, cwd, current) then (Err(500), fs1)
        else match Partition(fs1, cwd, root.value, current, listdir(current.parts))
          case Err(c) => (Err(c), fs1)
          case Ok(p) =>
            (Ok(Listing(SortByName(p.files), SortByName(p.directories), CurrentFolder(folder), Trail(folder))), fs1)
  }

  method ListMarkdownFiles(fs: FileTree, cwd: seq<string>, folder: Option<string>, listdir: seq<string> -> seq<string>)
    returns (r: Result<Listing>, fs': FileTree)
    ensures (r, fs') == ListingOf(fs, cwd, folder, listdir)
    ensures r.Ok? ==> SortedByName(r.value.markdownFiles) && SortedByName(r.value.directories)
  {
    var root;
    root, fs' := GetMarkdownDir(fs, cwd);
    if root.Err? {
      return Err(root.code), fs';
    }
    var currentDir := SubfolderPath(fs', cwd, root.value, folder);
    if currentDir.Err? {
      return Err(currentDir.code), fs';
    }
    var breadcrumbs := CreateBreadcrumbs(folder);
    if !IsDir(fs', cwd, currentDir.value) {
      return Err(500), fs';
    }
    var found := PartitionChildren(fs', cwd, root.value, currentDir.value, listdir(currentDir.value.parts));
    if found.Err? {
      return Err(found.code), fs';
    }
    r := Ok(Listing(SortByName(found.value.files), SortByName(found.value.directories), CurrentFolder(folder), breadcrumbs));
  }

  /** The listing shows exactly the children the root-relative partition
      finds, each list sorted by lower-cased name and a permutation of what
      the loop collected; the breadcrumbs are those of the folder. */
  lemma ListingContents(fs: FileTree, cwd: seq<string>, folder: Option<string>, listdir: seq<string> -> seq<string>)
    requires ListingOf(fs, cwd, folder, listdir).0.Ok?
    ensures var root, fs1 := MarkdownDir(fs, cwd).0.value, MarkdownDir(fs, cwd).1;
      var current := SubfolderPath(fs1, cwd, root, folder).value;
      var p := Partition(fs1, cwd, root, current, listdir(current.parts)).value;
      var l := ListingOf(fs, cwd, folder, listdir).0.value;
      && IsDir(fs1, cwd, current)
      && multiset(l.directories) == multiset(p.directories) && SortedByName(l.directories)
      && multiset(l.markdownFiles) == multiset(p.files) && SortedByName(l.markdownFiles)
      && l.breadcrumbs == Trail(folder) && l.currentFolder == CurrentFolder(folder)
  {
  }

  /** With no folder (or an empty one) the listing of the root never fails
      once the root has been found or made: the root is a directory and all
      its children lie under it. */
  lemma RootAlwaysLists(fs: FileTree, cwd: seq<string>, folder: Option<string>, listdir: seq<string> -> seq<string>)
    requires Valid(fs) && Normal(cwd) && (folder.None? || folder.value == "")
    ensures MarkdownDir(fs, cwd).0.Ok? ==> ListingOf(fs, cwd, folder, listdir).0.Ok?
  {
    var (root, fs1) := MarkdownDir(fs, cwd);
    if root.Ok? {
      MarkdownDirIsDirectory(fs, cwd);
      PartitionUnderRoot(fs1, cwd, root.value, root.value, listdir(root.value.parts));
    }
  }

  /** Under a canonical absolute folder of a real tree, `dir / name` for a
      valid entry name is a directory or a file exactly when the map says so. */
  lemma ChildLookup(fs: FileTree, cwd: seq<string>, dir: Path, n: string)
    requires Valid(fs) && dir.absolute && Normal(dir.parts) && ValidName(n)
    ensures IsDir(fs, cwd, Child(dir, n)) <==> Within(dir.parts, n) in fs && fs[Within(dir.parts, n)] == Dir
    ensures IsFile(fs, cwd, Child(dir, n)) <==> Within(dir.parts, n) in fs && fs[Within(dir.parts, n)] == File
  {
    assert Normal([n]);
    NormalAppend(dir.parts, [n]);
    LookupNormal(fs, [], dir.parts + [n]);
    assert [] + (dir.parts + [n]) == Within(dir.parts, n);
  }

  /** The folder a successful listing enumerates is a directory entry of the
      tree, named by canonical absolute components. */
  lemma ListedFolder(fs: FileTree, cwd: seq<string>, folder: Option<string>, listdir: seq<string> -> seq<string>)
    requires Valid(fs) && Normal(cwd) && ListingOf(fs, cwd, folder, listdir).0.Ok?
    ensures var root, fs1 := MarkdownDir(fs, cwd).0.value, MarkdownDir(fs, cwd).1;
      var current := SubfolderPath(fs1, cwd, root, folder).value;
      && Valid(fs1) && current.absolute && Normal(current.parts)
      && current.parts in fs1 && fs1[current.parts] == Dir
  {
    MarkdownDirIsDirectory(fs, cwd);
    var root, fs1 := MarkdownDir(fs, cwd).0.value, MarkdownDir(fs, cwd).1;
    var current := SubfolderPath(fs1, cwd, root, folder).value;
    assert root.absolute && Normal(root.parts);
    LookupNormal(fs1, [], current.parts);
    assert [] + current.parts == current.parts;
  }

  /** Every row of the listing is a real entry of the folder: a directory
      row names a subdirectory, a file row a Markdown-named file that
      `open()` can read. */
  lemma ListedRowsExist(fs: FileTree, cwd: seq<string>, folder: Option<string>, listdir: seq<string> -> seq<string>)
    requires Valid(fs) && Normal(cwd) && ListingOf(fs, cwd, folder, listdir).0.Ok?
    requires Lists(MarkdownDir(fs, cwd).1, listdir)
    ensures var root, fs1 := MarkdownDir(fs, cwd).0.value, MarkdownDir(fs, cwd).1;
      var current := SubfolderPath(fs1, cwd, root, folder).value;
      var l := ListingOf(fs, cwd, folder, listdir).0.value;
      && (forall e :: e in l.directories ==>
            Within(current.parts, e.name) in fs1 && fs1[Within(current.parts, e.name)] == Dir)
      && (forall e :: e in l.markdownFiles ==>
            Within(current.parts, e.name) in fs1 && fs1[Within(current.parts, e.name)] == File
            && IsFile(fs1, cwd, Child(current, e.name)) && IsMarkdownName(e.name))
  {
    ListedDirsExist(fs, cwd, folder, listdir);
    ListedFilesExist(fs, cwd, folder, listdir);
  }

  lemma ListedDirsExist(fs: FileTree, cwd: seq<string>, folder: Option<string>, listdir: seq<string> -> seq<string>)
    requires Valid(fs) && Normal(cwd) && ListingOf(fs, cwd, folder, listdir).0.Ok?
    requires Lists(MarkdownDir(fs, cwd).1, listdir)
    ensures var root, fs1 := MarkdownDir(fs, cwd).0.value, MarkdownDir(fs, cwd).1;
      var current := SubfolderPath(fs1, cwd, root, folder).value;
      forall e :: e in ListingOf(fs, cwd, folder, listdir).0.value.directories ==>
        Within(current.parts, e.name) in fs1 && fs1[Within(current.parts, e.name)] == Dir
  {
    ListedFolder(fs, cwd, folder, listdir);
    ListingContents(fs, cwd, folder, listdir);
    var root, fs1 := MarkdownDir(fs, cwd).0.value, MarkdownDir(fs, cwd).1;
    var current := SubfolderPath(fs1, cwd, root, folder).value;
    var names := listdir(current.parts);
    var p := Partition(fs1, cwd, root, current, names).value;
    var l := ListingOf(fs, cwd, folder, listdir).0.value;
    assert Enumerates(fs1, current.parts, names);
    PartitionSoundDirs(fs1, cwd, root, current, names);
    forall e | e in l.directories
      ensures Within(current.parts, e.name) in fs1 && fs1[Within(current.parts, e.name)] == Dir
    {
      assert e in multiset(p.directories);
      DirRowExists(fs1, cwd, root, current, names, e);
    }
  }

  /** A `directories` row over a truthful enumeration names a subdirectory. */
  lemma DirRowExists(fs: FileTree, cwd: seq<string>, root: Path, dir: Path, names: seq<string>, e: Entry)
    requires Valid(fs) && dir.absolute && Normal(dir.parts) && Enumerates(fs, dir.parts, names)
    requires ListedDir(fs, cwd, root, dir, names, e)
    ensures Within(dir.parts, e.name) in fs && fs[Within(dir.parts, e.name)] == Dir
  {
    ChildLookup(fs, cwd, dir, e.name);
  }

  lemma ListedFilesExist(fs: FileTree, cwd: seq<string>, folder: Option<string>, listdir: seq<string> -> seq<string>)
    requires Valid(fs) && Normal(cwd) && ListingOf(fs, cwd, folder, listdir).0.Ok?
    requires Lists(MarkdownDir(fs, cwd).1, listdir)
    ensures var root, fs1 := MarkdownDir(fs, cwd).0.value, MarkdownDir(fs, cwd).1;
      var current := SubfolderPath(fs1, cwd, root, folder).value;
      forall e :: e in ListingOf(fs, cwd, folder, listdir).0.value.markdownFiles ==>
        Within(current.parts, e.name) in fs1 && fs1[Within(current.parts, e.name)] == File
        && IsFile(fs1, cwd, Child(current, e.name)) && IsMarkdownName(e.name)
  {
    ListedFolder(fs, cwd, folder, listdir);
    ListingContents(fs, cwd, folder, listdir);
    var root, fs1 := MarkdownDir(fs, cwd).0.value, MarkdownDir(fs, cwd).1;
    var current := SubfolderPath(fs1, cwd, root, folder).value;
    var names := listdir(current.parts);
    var p := Partition(fs1, cwd, root, current, names).value;
    var l := ListingOf(fs, cwd, folder, listdir).0.value;
    assert Enumerates(fs1, current.parts, names);
    PartitionSoundFiles(fs1, cwd, root, current, names);
    forall e | e in l.markdownFiles
      ensures Within(current.parts, e.name) in fs1 && fs1[Within(current.parts, e.name)] == File
        && IsFile(fs1, cwd, Child(current, e.name)) && IsMarkdownName(e.name)
    {
      assert e in multiset(p.files);
      FileRowExists(fs1, cwd, root, current, names, e);
    }
  }

  /** A `markdown_files` row over a truthful enumeration names a readable
      Markdown file. */
  lemma FileRowExists(fs: FileTree, cwd: seq<string>, root: Path, dir: Path, names: seq<string>, e: Entry)
    requires Valid(fs) && dir.absolute && Normal(dir.parts) && Enumerates(fs, dir.parts, names)
    requires ListedFile(fs, cwd, root, dir, names, e)
    ensures Within(dir.parts, e.name) in fs && fs[Within(dir.parts, e.name)] == File
    ensures IsFile(fs, cwd, Child(dir, e.name)) && IsMarkdownName(e.name)
  {
    ChildLookup(fs, cwd, dir, e.name);
  }

  /** Every subdirectory of the folder, and every file in it with a Markdown
      suffix, gets a row. */
  lemma FolderEntriesListed(fs: FileTree, cwd: seq<string>, folder: Option<string>, listdir: seq<string> -> seq<string>)
    requires Valid(fs) && Normal(cwd) && ListingOf(fs, cwd, folder, listdir).0.Ok?
    requires Lists(MarkdownDir(fs, cwd).1, listdir)
    ensures var root, fs1 := MarkdownDir(fs, cwd).0.value, MarkdownDir(fs, cwd).1;
      var current := SubfolderPath(fs1, cwd, root, folder).value;
      var l := ListingOf(fs, cwd, folder, listdir).0.value;
      && (forall n :: Within(current.parts, n) in fs1 && fs1[Within(current.parts, n)] == Dir ==>
            exists e :: e in l.directories && e.name == n)
      && (forall n :: Within(current.parts, n) in fs1 && fs1[Within(current.parts, n)] == File && IsMarkdownName(n) ==>
            exists e :: e in l.markdownFiles && e.name == n)
  {
    ListedFolder(fs, cwd, folder, listdir);
    ListingContents(fs, cwd, folder, listdir);
    var root, fs1 := MarkdownDir(fs, cwd).0.value, MarkdownDir(fs, cwd).1;
    var current := SubfolderPath(fs1, cwd, root, folder).value;
    var names := listdir(current.parts);
    var p := Partition(fs1, cwd, root, current, names).value;
    var l := ListingOf(fs, cwd, folder, listdir).0.value;
    assert Enumerates(fs1, current.parts, names);
    forall n | Within(current.parts, n) in fs1 && fs1[Within(current.parts, n)] == Dir
      ensures exists e :: e in l.directories && e.name == n
    {
      ChildLookup(fs1, cwd, current, n);
      PartitionListsDir(fs1, cwd, root, current, names, n);
      var e :| e in p.directories && e.name == n;
      assert e in multiset(l.directories);
    }
    forall n | Within(current.parts, n) in fs1 && fs1[Within(current.parts, n)] == File && IsMarkdownName(n)
      ensures exists e :: e in l.markdownFiles && e.name == n
    {
      ChildLookup(fs1, cwd, current, n);
      PartitionListsFile(fs1, cwd, root, current, names, n);
      var e :| e in p.files && e.name == n;
      assert e in multiset(l.markdownFiles);
    }
  }

  // ----- Downloads: download_markdown -----

  /** `FileResponse(full_path, filename=full_path.name)` */
  datatype FileDownload = FileDownload(path: Path, filename: string)

  /** The checks `download_markdown` makes against the root `base`: `base /
      filePath`, resolved, must exist and pass the string prefix test, else
      404; a `ValueError` from `resolve()` is caught by the generic handler
      and becomes 500. */
  function DownloadCheck(fs: FileTree, cwd: seq<string>, base: Path, filePath: string): (r: Result<FileDownload>)
    ensures r.Err? ==> r.code == 404 || r.code == 500
    ensures r == Err(500) <==> ResolveRaises(Div(base, Parse(filePath)))
    ensures !ResolveRaises(Div(base, Parse(filePath))) && !Exists(fs, cwd, Resolve(cwd, Div(base, Parse(filePath)))) ==>
      r == Err(404)
    ensures r.Ok? ==> (Exists(fs, cwd, r.value.path) && StartsWith(Str(r.value.path), Str(base))
      && r.value.filename == Name(r.value.path))
  {
    var joined := Div(base, Parse(filePath));
    if ResolveRaises(joined) then Err(500)
    else
      var full := Resolve(cwd, joined);
      if !Exists(fs, cwd, full) || !StartsWith(Str(full), Str(base)) then Err(404)
      else Ok(FileDownload(full, Name(full)))
  }

  /** The whole handler: the root is looked up first, and a failure there
      (a `mkdir` that cannot be done) escapes as 500. */
  function DownloadMarkdown(fs: FileTree, cwd: seq<string>, filePath: string): (r: (Result<FileDownload>, FileTree))
    ensures r.1 == MarkdownDir(fs, cwd).1
    ensures r.0.Err? ==> r.0.code == 404 || r.0.code == 500
  {
    var root, fs1 := MarkdownDir(fs, cwd).0, MarkdownDir(fs, cwd).1;
    if root.Err? then (Err(root.code), fs1)
    else (DownloadCheck(fs1, cwd, root.value, filePath), fs1)
  }

  /** A download that is served names an entry of the tree the root lookup
      left behind, whose string starts with the root's; that root is an
      absolute directory, and a second lookup would keep it. */
  lemma DownloadServed(fs: FileTree, cwd: seq<string>, filePath: string)
    requires Valid(fs) && Normal(cwd) && DownloadMarkdown(fs, cwd, filePath).0.Ok?
    ensures var root, fs1 := MarkdownDir(fs, cwd).0, MarkdownDir(fs, cwd).1;
      var d := DownloadMarkdown(fs, cwd, filePath).0.value;
      && root.Ok? && root.value.absolute && IsDir(fs1, cwd, root.value)
      && Exists(fs1, cwd, d.path) && StartsWith(Str(d.path), Str(root.value))
      && d == DownloadCheck(fs1, cwd, root.value, filePath).value
  {
    MarkdownDirIsDirectory(fs, cwd);
  }

  /** The download check and the folder check accept the same non-empty
      paths and resolve them alike; they differ only in the code: an
      unresolvable path is 400 as a folder but 500 as a download, and a path
      failing the prefix test is 400 as a folder but 404 as a download. */
  lemma DownloadAgreesWithSubfolder(fs: FileTree, cwd: seq<string>, base: Path, filePath: string)
    requires filePath != ""
    ensures DownloadCheck(fs, cwd, base, filePath).Ok? <==> SubfolderPath(fs, cwd, base, Some(filePath)).Ok?
    ensures DownloadCheck(fs, cwd, base, filePath).Ok? ==>
      DownloadCheck(fs, cwd, base, filePath).value.path == SubfolderPath(fs, cwd, base, Some(filePath)).value
    ensures ResolveRaises(Div(base, Parse(filePath))) ==>
      DownloadCheck(fs, cwd, base, filePath) == Err(500) && SubfolderPath(fs, cwd, base, Some(filePath)) == Err(400)
    ensures !ResolveRaises(Div(base, Parse(filePath))) && !StartsWith(Str(Resolved(cwd, base, filePath)), Str(base)) ==>
      DownloadCheck(fs, cwd, base, filePath) == Err(404) && SubfolderPath(fs, cwd, base, Some(filePath)) == Err(400)
  {
  }

  /** The prefix gap reaches downloads too: with `/x/docs` as the root,
      `../docs-other` is accepted. */
  lemma SiblingDownloadAdmitted()
    ensures DownloadCheck(SiblingTree(), ["x"], Path(true, ["x", "docs"]), "../docs-other")
      == Ok(FileDownload(Path(true, ["x", "docs-other"]), "docs-other"))
  {
    SiblingFolderAdmitted();
    DownloadAgreesWithSubfolder(SiblingTree(), ["x"], Path(true, ["x", "docs"]), "../docs-other");
  }

  // ----- Viewing: view_markdown -----

  /** The base `view_markdown` uses: `pdf_uploads`, relative to the working
      directory, whatever root `get_markdown_dir` would choose. */
  const ViewBase := Path(false, ["pdf_uploads"])

  /** What the viewer page is given besides the rendered content. */
  datatype MarkdownView = MarkdownView(title: string, filePath: string, backUrl: string)

  /** The "back" link for the parent folder's root-relative string. */
  function BackUrl(parentFolder: string): (u: string)
    ensures parentFolder == "" || parentFolder == "." <==> u == "/pdf/"
  {
    if parentFolder != "" && parentFolder != "." then "/pdf/?folder=" + parentFolder else "/pdf/"
  }

  /** `view_markdown(file_path)`: `pdf_uploads / file_path` must exist and
      have the lower-cased suffix `.md`, else 404; that the file can be read
      is modelled as it being a file (a directory fails to open: 500); the
      parent must lie under `pdf_uploads` lexically (`relative_to`), else
      500. Nothing confines the path: `..` components are kept. */
  function ViewMarkdown(fs: FileTree, cwd: seq<string>, filePath: string): (r: Result<MarkdownView>)
    ensures r.Err? ==> r.code == 404 || r.code == 500
    ensures var full := Div(ViewBase, Parse(filePath));
      !Exists(fs, cwd, full) || Lower(Suffix(Name(full))) != ".md" ==> r == Err(404)
    ensures r.Ok? ==>
      var full := Div(ViewBase, Parse(filePath));
      && IsFile(fs, cwd, full) && Lower(Suffix(Name(full))) == ".md"
      && r.value.title == Name(full) && r.value.filePath == filePath
  {
    ViewFile(fs, cwd, Div(ViewBase, Parse(filePath)), filePath)
  }

  /** The checks on `full`, the joined path of the request `filePath`. */
  function ViewFile(fs: FileTree, cwd: seq<string>, full: Path, filePath: string): (r: Result<MarkdownView>)
    ensures r.Err? ==> r.code == 404 || r.code == 500
    ensures !Exists(fs, cwd, full) || Lower(Suffix(Name(full))) != ".md" ==> r == Err(404)
    ensures r.Ok? ==> IsFile(fs, cwd, full) && Lower(Suffix(Name(full))) == ".md"
  {
    if !Exists(fs, cwd, full) || Lower(Suffix(Name(full))) != ".md" then Err(404)
    else if !IsFile(fs, cwd, full) then Err(500)
    else match RelPath(ViewBase, Parent(full))
      case None => Err(500)
      case Some(parentFolder) => Ok(MarkdownView(Name(full), filePath, BackUrl(parentFolder)))
  }

  /** An accepted request is a relative path, and its back link is made from
      the request's components but the last. */
  lemma ViewAcceptedParent(fs: FileTree, cwd: seq<string>, filePath: string)
    requires ViewMarkdown(fs, cwd, filePath).Ok?
    ensures var q := Parse(filePath);
      && !q.absolute && q.parts != []
      && ViewMarkdown(fs, cwd, filePath).value.backUrl
         == BackUrl(ReplaceChar(Str(Path(false, q.parts[..|q.parts| - 1])), '\\', '/'))
  {
    var q := Parse(filePath);
    var full := Div(ViewBase, q);
    ViewFileAccepted(fs, cwd, full, filePath);
    ParentUnderBase(full);
    assert !q.absolute;
    ConsDropLast("pdf_uploads", q.parts);
  }

  /** The converse: a relative request with at least one component whose
      joined path is a file with the lower-cased suffix `.md` is served,
      under its own name. */
  lemma ViewServesMarkdownFile(fs: FileTree, cwd: seq<string>, filePath: string)
    requires !Parse(filePath).absolute && Parse(filePath).parts != []
    requires IsFile(fs, cwd, Div(ViewBase, Parse(filePath)))
    requires Lower(Suffix(Name(Div(ViewBase, Parse(filePath))))) == ".md"
    ensures ViewMarkdown(fs, cwd, filePath).Ok?
    ensures ViewMarkdown(fs, cwd, filePath).value.title == Parse(filePath).parts[|Parse(filePath).parts| - 1]
  {
    var q := Parse(filePath);
    BaseHoldsParent(q.parts);
    ViewFileServes(fs, cwd, Div(ViewBase, q), filePath);
  }

  /** `(pdf_uploads / p).parent` lies under `pdf_uploads` for a relative `p`
      with at least one component. */
  lemma BaseHoldsParent(parts: seq<string>)
    requires parts != []
    ensures RelativeTo(Parent(Div(ViewBase, Path(false, parts))), ViewBase).Some?
    ensures Name(Div(ViewBase, Path(false, parts))) == parts[|parts| - 1]
  {
    var full := ["pdf_uploads"] + parts;
    assert full[..|full| - 1][..1] == ["pdf_uploads"];
  }

  lemma ViewFileServes(fs: FileTree, cwd: seq<string>, full: Path, filePath: string)
    requires IsFile(fs, cwd, full) && Lower(Suffix(Name(full))) == ".md"
    requires RelativeTo(Parent(full), ViewBase).Some?
    ensures ViewFile(fs, cwd, full, filePath).Ok? && ViewFile(fs, cwd, full, filePath).value.title == Name(full)
  {
  }

  /** What an accepted `view_markdown` found: its parent lies under
      `pdf_uploads`, and the back link is made from the rest. */
  lemma ViewFileAccepted(fs: FileTree, cwd: seq<string>, full: Path, filePath: string)
    requires ViewFile(fs, cwd, full, filePath).Ok?
    ensures RelativeTo(Parent(full), ViewBase).Some?
    ensures ViewFile(fs, cwd, full, filePath).value.backUrl
      == BackUrl(ReplaceChar(Str(RelativeTo(Parent(full), ViewBase).value), '\\', '/'))
  {
  }

  /** A path whose parent lies under `pdf_uploads` is relative, below it, and
      its parent's remainder is the components between. */
  lemma ParentUnderBase(full: Path)
    requires RelativeTo(Parent(full), ViewBase).Some?
    ensures !full.absolute && |full.parts| >= 2 && full.parts[0] == "pdf_uploads"
    ensures RelativeTo(Parent(full), ViewBase).value == Path(false, full.parts[1..|full.parts| - 1])
  {
    var rel := RelativeTo(Parent(full), ViewBase).value;
    assert |Parent(full).parts| >= 1;
    assert ViewBase.parts + rel.parts == Parent(full).parts;
  }

  /** The back link for the parent components `ps` (none of them empty or
      `.`): `/pdf/` at the top, else the components joined by `/`. */
  lemma BackUrlOfFolder(ps: seq<string>)
    requires forall k :: 0 <= k < |ps| ==> ps[k] != "" && ps[k] != "."
    ensures BackUrl(ReplaceChar(Str(Path(false, ps)), '\\', '/'))
      == if ps == [] then "/pdf/" else "/pdf/?folder=" + ReplaceChar(JoinWith(ps, '/'), '\\', '/')
  {
    if ps != [] {
      var joined := JoinWith(ps, '/');
      var shown := ReplaceChar(joined, '\\', '/');
      assert |joined| >= |ps[|ps| - 1]| > 0;
      if |ps| == 1 {
        assert joined == ps[0];
        assert shown != ".";
      } else {
        assert |joined| >= |JoinWith(ps[..|ps| - 1], '/')| + 1 + |ps[|ps| - 1]| > 1;
      }
    }
  }

  /** The back link of an accepted request: `/pdf/` for a file directly in
      `pdf_uploads`, otherwise the folder of the request's parent, its
      components joined by `/`. */
  lemma ViewBackUrl(fs: FileTree, cwd: seq<string>, filePath: string)
    requires ViewMarkdown(fs, cwd, filePath).Ok?
    ensures var parts := Parse(filePath).parts;
      && !Parse(filePath).absolute && parts != []
      && ViewMarkdown(fs, cwd, filePath).value.backUrl ==
         if |parts| == 1 then "/pdf/"
         else "/pdf/?folder=" + ReplaceChar(JoinWith(parts[..|parts| - 1], '/'), '\\', '/')
  {
    ViewAcceptedParent(fs, cwd, filePath);
    var parts := Parse(filePath).parts;
    BackUrlOfFolder(parts[..|parts| - 1]);
  }

  lemma MarkdownSuffixExample()
    ensures Suffix("notes.markdown") == ".markdown" && Lower(".markdown") == ".markdown"
  {
    NotesSuffix();
    LowerNoUpper(".markdown");
  }

  lemma NotesSuffix()
    ensures Suffix("notes.markdown") == ".markdown"
  {
    var s := "notes" + ['.'] + "markdown";
    assert s == "notes.markdown" by {
      forall i | 0 <= i < |s| ensures s[i] == "notes.markdown"[i] {
      }
    }
    SuffixAfterDot("notes", "markdown");
  }

  /** The listing offers `.markdown` files, but the viewer refuses them. */
  lemma ViewRefusesMarkdownSuffix(fs: FileTree, cwd: seq<string>)
    ensures IsMarkdownName("notes.markdown")
    ensures ViewMarkdown(fs, cwd, "notes.markdown") == Err(404)
  {
    MarkdownSuffixExample();
    var full := NotesPath();
    ViewFileRefuses(fs, cwd, full);
  }

  /** A plain file name asked of the viewer names an entry of `pdf_uploads`. */
  lemma ViewPathOfName(n: string)
    requires '/' !in n && n != "" && n != "."
    ensures Div(ViewBase, Parse(n)) == Path(false, ["pdf_uploads", n])
  {
    ParseName(n);
  }

  lemma NotesPath() returns (full: Path)
    ensures full == Div(ViewBase, Parse("notes.markdown")) && Name(full) == "notes.markdown"
  {
    ViewPathOfName("notes.markdown");
    full := Path(false, ["pdf_uploads", "notes.markdown"]);
  }

  lemma ViewFileRefuses(fs: FileTree, cwd: seq<string>, full: Path)
    requires Name(full) == "notes.markdown" && Suffix("notes.markdown") == ".markdown"
    ensures ViewFile(fs, cwd, full, "notes.markdown") == Err(404)
  {
    assert |Lower(".markdown")| == 9;
  }

  lemma ParseTraversal()
    ensures Parse("../secret.md") == Path(false, ["..", "secret.md"])
  {
    assert "../secret.md" == ".." + ['/'] + "secret.md";
    SplitTwo("..", "secret.md", '/');
    assert ["..", "secret.md"][..1] == [".."];
    assert [".."][..0] == [];
  }

  /** A working directory `/w` holding `pdf_uploads` and, beside it,
      `secret.md`. */
  function TraversalTree(): FileTree {
    map[[] := Dir, ["w"] := Dir, ["w", "pdf_uploads"] := Dir, ["w", "secret.md"] := File]
  }

  lemma TraversalFound()
    ensures IsFile(TraversalTree(), ["w"], Path(false, ["pdf_uploads", "..", "secret.md"]))
  {
    var fs := TraversalTree();
    assert Lookup(fs, ["w", "secret.md"], []) == Some(["w", "secret.md"]);
    assert ["w"] + ["secret.md"] == ["w", "secret.md"];
    assert Lookup(fs, ["w"], ["secret.md"]) == Some(["w", "secret.md"]);
    assert Up(["w", "pdf_uploads"]) == ["w"];
    assert Lookup(fs, ["w", "pdf_uploads"], ["..", "secret.md"]) == Some(["w", "secret.md"]);
    assert ["w"] + ["pdf_uploads"] == ["w", "pdf_uploads"];
  }

  lemma TraversalNames()
    ensures Suffix("secret.md") == ".md" && Lower(".md") == ".md"
    ensures ReplaceChar("..", '\\', '/') == ".."
  {
    assert "secret.md" == "secret" + ['.'] + "md";
    LastIndexOfAt("secret", '.', "md");
  }

  lemma ViewFileTraversal()
    ensures ViewFile(TraversalTree(), ["w"], Path(false, ["pdf_uploads", "..", "secret.md"]), "../secret.md")
      == Ok(MarkdownView("secret.md", "../secret.md", "/pdf/?folder=.."))
  {
    TraversalFound();
    TraversalNames();
    var full := Path(false, ["pdf_uploads", "..", "secret.md"]);
    assert Parent(full) == Path(false, ["pdf_uploads", ".."]);
    assert RelativeTo(Parent(full), ViewBase) == Some(Path(false, [".."]));
    assert Str(Path(false, [".."])) == "..";
    assert RelPath(ViewBase, Parent(full)) == Some("..");
    assert Name(full) == "secret.md";
    assert Exists(TraversalTree(), ["w"], full);
    assert BackUrl("..") == "/pdf/?folder=..";
  }

  /** Nothing confines the viewer: `../secret.md` opens a file beside
      `pdf_uploads`, with a back link to the folder `..`. */
  lemma ViewTraversal()
    ensures ViewMarkdown(TraversalTree(), ["w"], "../secret.md")
      == Ok(MarkdownView("secret.md", "../secret.md", "/pdf/?folder=.."))
  {
    ParseTraversal();
    assert Div(ViewBase, Parse("../secret.md")) == Path(false, ["pdf_uploads", "..", "secret.md"]);
    ViewFileTraversal();
  }
}
