/** The PDF router (`app/routers/pdfs.py`): choosing the PDF directory, the
    listing with its display names and links, and the check made before a
    PDF is viewed or downloaded. */
module Pdfs {
  import opened Outcomes
  import opened Strings
  import opened Paths
  import opened FileSystem
  import opened Search

  // ----- The PDF directory: get_pdf_dir -----

  /** `glob("*.pdf")` on one name, as on POSIX: case-sensitive, and `*` also
      matches the empty string and a leading dot. */
  predicate GlobMatch(name: string) {
    EndsWith(name, ".pdf")
  }

  /** The locations tried, in order, all relative to the working directory;
      `./app/pdfs` and `./pdf_uploads` are the same paths as the first two
      (`CandidatesParsed`). */
  function Candidates(): seq<Path> {
    [Path(false, ["app", "pdfs"]), Path(false, ["pdf_uploads"]), Path(false, ["app", "pdfs"]), Path(false, ["pdf_uploads"])]
  }

  lemma ParseAppPdfs()
    ensures Parse("app/pdfs") == Path(false, ["app", "pdfs"])
  {
    assert "app/pdfs" == "app" + ['/'] + "pdfs";
    ParsePair("app", "pdfs");
  }

  lemma SplitDotAppPdfs()
    ensures Split("./app/pdfs", '/') == [".", "app", "pdfs"]
  {
    assert "./app/pdfs" == "./app" + ['/'] + "pdfs";
    SplitSnoc("./app", "pdfs", '/');
    SplitDotApp();
  }

  lemma SplitDotApp()
    ensures Split("./app", '/') == [".", "app"]
  {
    assert "./app" == "." + ['/'] + "app";
    SplitTwo(".", "app", '/');
  }

  lemma WithoutDotAppPdfs()
    ensures Without([".", "app", "pdfs"], {"", "."}) == ["app", "pdfs"]
  {
    var parts := [".", "app", "pdfs"];
    assert parts[..2] == [".", "app"];
    assert parts[..2][..1] == ["."];
    assert ["."][..0] == [];
    assert Without(["."], {"", "."}) == [];
    assert Without([".", "app"], {"", "."}) == ["app"];
  }

  lemma ParseDotAppPdfs()
    ensures Parse("./app/pdfs") == Path(false, ["app", "pdfs"])
  {
    SplitDotAppPdfs();
    WithoutDotAppPdfs();
  }

  lemma ParseDotPdfUploads()
    ensures Parse("./pdf_uploads") == Path(false, ["pdf_uploads"])
  {
    assert "./pdf_uploads" == "." + ['/'] + "pdf_uploads";
    SplitTwo(".", "pdf_uploads", '/');
    assert [".", "pdf_uploads"][..1] == ["."];
    assert ["."][..0] == [];
  }

  /** The candidates are the four strings of the source, parsed. */
  lemma CandidatesParsed()
    ensures Candidates() == [Parse("app/pdfs"), Parse("pdf_uploads"), Parse("./app/pdfs"), Parse("./pdf_uploads")]
  {
    ParseAppPdfs();
    ParseName("pdf_uploads");
    ParseDotAppPdfs();
    ParseDotPdfUploads();
  }

  /** `any(path.glob("*.pdf"))` for the entry `k`: `k` is a directory with an
      entry whose name matches. */
  predicate HasPdfChild(fs: FileTree, k: seq<string>) {
    && k in fs && fs[k] == Dir
    && exists key :: key in fs && |key| == |k| + 1 && key[..|k|] == k && GlobMatch(key[|k|])
  }

  /** `HasPdfChild` asks for a matching entry of `k` and nothing else. */
  lemma HasPdfChildIff(fs: FileTree, k: seq<string>)
    ensures HasPdfChild(fs, k) <==> k in fs && fs[k] == Dir && exists n :: Within(k, n) in fs && GlobMatch(n)
  {
    if k in fs && fs[k] == Dir && exists n :: Within(k, n) in fs && GlobMatch(n) {
      var n :| Within(k, n) in fs && GlobMatch(n);
      var key := Within(k, n);
      assert key[..|k|] == k && key[|k|] == n;
    }
    if HasPdfChild(fs, k) {
      var key :| key in fs && |key| == |k| + 1 && key[..|k|] == k && GlobMatch(key[|k|]);
      assert Within(k, key[|k|]) == key;
    }
  }

  /** The test a candidate has to pass: it exists and globbing it finds a
      PDF (a file that exists has no entries to find). */
  predicate Usable(fs: FileTree, cwd: seq<string>, p: Path) {
    var r := Lookup(fs, Start(cwd, p), p.parts);
    Exists(fs, cwd, p) && r.Some? && HasPdfChild(fs, r.value)
  }

  /** `Usable` as the test the candidate loop applies. */
  function UsableTest(fs: FileTree, cwd: seq<string>): Path -> bool {
    p => Usable(fs, cwd, p)
  }

  /** The position of the first usable candidate from `from` on, or
      `|cands|` when there is none. */
  function FirstUsable(fs: FileTree, cwd: seq<string>, cands: seq<Path>, from: nat): nat
    requires from <= |cands|
  {
    FirstWhere(UsableTest(fs, cwd), cands, from)
  }

  /** The default the fallback creates, relative to the working directory. */
  const Default := Path(false, ["app", "pdfs"])

  /** What `get_pdf_dir` returns, still relative, and the filesystem it
      leaves behind: the first usable candidate; otherwise `app/pdfs`,
      created with its parents. A failed `mkdir` escapes as a 500. */
  function PdfDir(fs: FileTree, cwd: seq<string>): (r: (Result<Path>, FileTree))
    ensures r.0.Err? ==> r.0.code == 500
    ensures r.0.Ok? ==> !r.0.value.absolute && r.0.value.parts != []
  {
    var k := FirstUsable(fs, cwd, Candidates(), 0);
    if k < |Candidates()| then (Ok(Candidates()[k]), fs)
    else match Mkdir(fs, Normalize(cwd + Default.parts))
      case None => (Err(500), fs)
      case Some(f) => (Ok(Default), f)
  }

  method GetPdfDir(fs: FileTree, cwd: seq<string>) returns (r: Result<Path>, fs': FileTree)
    ensures (r, fs') == PdfDir(fs, cwd)
  {
    var pathsToCheck := Candidates();
    var i := 0;
    while i < |pathsToCheck|
      invariant 0 <= i <= |pathsToCheck|
      invariant FirstUsable(fs, cwd, pathsToCheck, i) == FirstUsable(fs, cwd, pathsToCheck, 0)
    {
      var path := pathsToCheck[i];
      var found := Lookup(fs, Start(cwd, path), path.parts);
      if Exists(fs, cwd, path) && found.Some? && HasPdfChild(fs, found.value) {
        return Ok(path), fs;
      }
      i := i + 1;
    }
    var made := Mkdir(fs, Normalize(cwd + Default.parts));
    if made.None? {
      return Err(500), fs;
    }
    return Ok(Default), made.value;
  }

  /** On a real tree and a canonical working directory, a candidate path is
      usable exactly when its entry under the working directory has a
      matching entry. */
  lemma UsableUnder(fs: FileTree, cwd: seq<string>, parts: seq<string>)
    requires Valid(fs) && Normal(cwd) && Normal(parts) && parts != []
    ensures Usable(fs, cwd, Path(false, parts)) <==> HasPdfChild(fs, cwd + parts)
  {
    if cwd in fs && fs[cwd] == Dir {
      LookupNormal(fs, cwd, parts);
    } else if HasPdfChild(fs, cwd + parts) {
      assert (cwd + parts)[..|cwd|] == cwd;
      Ancestors(fs, cwd + parts, |cwd|);
    }
  }

  /** The directories the fallback makes hold no PDF: a matching entry of a
      candidate after `mkdir` was already there before. */
  lemma FallbackAddsNoPdf(fs: FileTree, cwd: seq<string>, parts: seq<string>)
    requires Valid(fs) && Normal(cwd) && parts in {["app", "pdfs"], ["pdf_uploads"]}
    requires Mkdir(fs, cwd + Default.parts).Some?
    ensures HasPdfChild(Mkdir(fs, cwd + Default.parts).value, cwd + parts) ==> HasPdfChild(fs, cwd + parts)
  {
    var t := cwd + Default.parts;
    var f := Mkdir(fs, t).value;
    var k := cwd + parts;
    if HasPdfChild(f, k) {
      var key :| key in f && |key| == |k| + 1 && key[..|k|] == k && GlobMatch(key[|k|]);
      assert key in fs;
      assert key[..|key| - 1] == k;
      Ancestors(fs, key, |k|);
    }
  }

  /** The directory chosen is a directory on the tree left behind (which
      stays real); a candidate is only chosen when it holds a PDF, and the
      fallback is only taken when none does. */
  lemma PdfDirIsDirectory(fs: FileTree, cwd: seq<string>)
    requires Valid(fs) && Normal(cwd)
    ensures var r, f := PdfDir(fs, cwd).0, PdfDir(fs, cwd).1;
      && Valid(f) && fs.Keys <= f.Keys
      && (r.Ok? ==> IsDir(f, cwd, r.value))
      && (r.Ok? && r.value != Default ==> f == fs && Usable(fs, cwd, r.value))
      && (f != fs ==> forall c :: c in Candidates() ==> !Usable(fs, cwd, c))
  {
    var k := FirstUsable(fs, cwd, Candidates(), 0);
    FirstWhereIsFirst(UsableTest(fs, cwd), Candidates(), 0);
    if k == |Candidates()| {
      FallbackTarget(cwd);
      if Mkdir(fs, cwd + Default.parts).Some? {
        FallbackIsDirectory(fs, cwd);
      }
    }
  }

  /** The fallback's target is already canonical. */
  lemma FallbackTarget(cwd: seq<string>)
    requires Normal(cwd)
    ensures Normalize(cwd + Default.parts) == cwd + Default.parts
  {
    NormalAppend(cwd, Default.parts);
    NormalizeNormal(cwd + Default.parts);
  }

  /** Once made, `app/pdfs` is a directory on a real tree. */
  lemma FallbackIsDirectory(fs: FileTree, cwd: seq<string>)
    requires Valid(fs) && Mkdir(fs, cwd + Default.parts).Some?
    ensures Valid(Mkdir(fs, cwd + Default.parts).value)
    ensures IsDir(Mkdir(fs, cwd + Default.parts).value, cwd, Default)
  {
    var t := cwd + Default.parts;
    var f := Mkdir(fs, t).value;
    MkdirValid(fs, t);
    Ancestors(f, t, |cwd|);
    assert t[..|cwd|] == cwd;
    LookupNormal(f, cwd, Default.parts);
  }

  /** Neither candidate directory becomes usable through the fallback. */
  lemma FallbackKeepsUnusableAt(fs: FileTree, cwd: seq<string>, parts: seq<string>)
    requires Valid(fs) && Normal(cwd) && parts in {["app", "pdfs"], ["pdf_uploads"]}
    requires Mkdir(fs, cwd + Default.parts).Some?
    requires !Usable(fs, cwd, Path(false, parts))
    ensures !Usable(Mkdir(fs, cwd + Default.parts).value, cwd, Path(false, parts))
  {
    MkdirValid(fs, cwd + Default.parts);
    assert Normal(parts);
    FallbackAddsNoPdf(fs, cwd, parts);
    UsableUnder(fs, cwd, parts);
    UsableUnder(Mkdir(fs, cwd + Default.parts).value, cwd, parts);
  }

  /** A candidate that is not usable stays so after the fallback. */
  lemma FallbackKeepsUnusable(fs: FileTree, cwd: seq<string>, i: nat)
    requires Valid(fs) && Normal(cwd) && i < |Candidates()| && Mkdir(fs, cwd + Default.parts).Some?
    requires !Usable(fs, cwd, Candidates()[i])
    ensures !Usable(Mkdir(fs, cwd + Default.parts).value, cwd, Candidates()[i])
  {
    if i == 0 || i == 2 {
      assert Candidates()[i] == Path(false, ["app", "pdfs"]);
      FallbackKeepsUnusableAt(fs, cwd, ["app", "pdfs"]);
    } else {
      assert Candidates()[i] == Path(false, ["pdf_uploads"]);
      FallbackKeepsUnusableAt(fs, cwd, ["pdf_uploads"]);
    }
  }

  /** Calling `get_pdf_dir` again on the tree the first call left behind
      gives the same directory and creates nothing: a created `app/pdfs` is
      still empty, so the second call falls back to it again. */
  lemma PdfDirIdempotent(fs: FileTree, cwd: seq<string>)
    requires Valid(fs) && Normal(cwd)
    ensures PdfDir(fs, cwd).0.Ok? ==> PdfDir(PdfDir(fs, cwd).1, cwd) == PdfDir(fs, cwd)
  {
    var cands := Candidates();
    var k := FirstUsable(fs, cwd, cands, 0);
    var t := cwd + Default.parts;
    FallbackTarget(cwd);
    if k == |cands| && Mkdir(fs, t).Some? {
      var f := Mkdir(fs, t).value;
      FirstWhereIsFirst(UsableTest(fs, cwd), cands, 0);
      forall i | 0 <= i < |cands| ensures !Usable(f, cwd, cands[i]) {
        FallbackKeepsUnusable(fs, cwd, i);
      }
      assert FirstUsable(f, cwd, cands, 0) == |cands|;
      assert Mkdir(f, t) == Some(f);
    }
  }

  // ----- The listing: list_pdfs -----

  /** A PDF's display name: its stem with `_` turned into spaces, then
      title-cased. */
  function DisplayName(filename: string): string {
    Title(ReplaceChar(Stem(filename), '_', ' '))
  }

  /** The display name is as long as the stem, and a position holds a space
      exactly where the stem holds `_` or a space: underscores become spaces
      and only the case of letters changes. */
  lemma DisplayNameSpaces(filename: string, i: nat)
    requires i < |Stem(filename)|
    ensures |DisplayName(filename)| == |Stem(filename)|
    ensures DisplayName(filename)[i] == ' ' <==> Stem(filename)[i] == '_' || Stem(filename)[i] == ' '
    ensures '_' !in DisplayName(filename)
  {
    var s := ReplaceChar(Stem(filename), '_', ' ');
    TitleAt(s, i);
    forall j | 0 <= j < |s| ensures DisplayName(filename)[j] != '_' {
      TitleAt(s, j);
    }
  }

  lemma DisplayNameStem()
    ensures Stem("my_report.pdf") == "my_report"
  {
    assert "my_report.pdf" == "my_report" + ['.'] + "pdf";
    LastIndexOfAt("my_report", '.', "pdf");
  }

  lemma UnderscoreExample()
    ensures ReplaceChar("my_report", '_', ' ') == "my report"
  {
  }

  lemma TitleExample()
    ensures Title("my report") == "My Report"
  {
    var s := "my report";
    TitleAfterLength(s, false);
    forall i | 0 <= i < |s| ensures Title(s)[i] == "My Report"[i] {
      TitleAt(s, i);
    }
  }

  /** `my_report.pdf` is shown as `My Report`. */
  lemma DisplayNameExample()
    ensures DisplayName("my_report.pdf") == "My Report"
  {
    DisplayNameStem();
    UnderscoreExample();
    TitleExample();
  }

  /** One row of the listing; the size is left out. */
  datatype PdfEntry = PdfEntry(name: string, filename: string, path: string, download: string)

  /** The row for the file `filename`. */
  function EntryFor(filename: string): PdfEntry {
    PdfEntry(DisplayName(filename), filename, "/pdf/view/" + filename, "/pdf/download/" + filename)
  }

  /** The names `glob("*.pdf")` yields from the children `names`, in order. */
  function Matches(names: seq<string>): (r: seq<string>)
    ensures forall n :: n in r <==> n in names && GlobMatch(n)
  {
    if names == [] then []
    else
      var last := names[|names| - 1];
      assert names == names[..|names| - 1] + [last];
      Matches(names[..|names| - 1]) + (if GlobMatch(last) then [last] else [])
  }

  /** Globbing keeps the children distinct: `iterdir()` yields each entry
      once, and so does `glob()`. */
  lemma {:induction false} MatchesDistinct(names: seq<string>)
    requires forall i, j :: 0 <= i < j < |names| ==> names[i] != names[j]
    ensures forall i, j :: 0 <= i < j < |Matches(names)| ==> Matches(names)[i] != Matches(names)[j]
    decreases |names|
  {
    if names != [] {
      var front, last := names[..|names| - 1], names[|names| - 1];
      assert forall i, j :: 0 <= i < j < |front| ==> front[i] != front[j] by {
        forall i, j | 0 <= i < j < |front| ensures front[i] != front[j] {
          assert front[i] == names[i] && front[j] == names[j];
        }
      }
      MatchesDistinct(front);
      assert last !in front by {
        forall i | 0 <= i < |front| ensures front[i] != last {
          assert front[i] == names[i];
        }
      }
      var m0 := Matches(front);
      assert last !in m0;
      var r := Matches(names);
      assert r == m0 + (if GlobMatch(last) then [last] else []);
      forall i, j | 0 <= i < j < |r| ensures r[i] != r[j] {
        assert r[i] == m0[i];
        if j < |m0| {
          assert r[j] == m0[j];
          assert m0[i] != m0[j];
        } else {
          assert m0[i] in m0;
          assert r[j] == last;
        }
      }
    }
  }

  /** The loop of `list_pdfs` over the globbed names. */
  method PdfEntries(files: seq<string>) returns (pdfFiles: seq<PdfEntry>)
    ensures |pdfFiles| == |files|
    ensures forall i :: 0 <= i < |files| ==> pdfFiles[i] == EntryFor(files[i])
  {
    pdfFiles := [];
    var i := 0;
    while i < |files|
      invariant 0 <= i <= |files|
      invariant |pdfFiles| == i
      invariant forall j :: 0 <= j < i ==> pdfFiles[j] == EntryFor(files[j])
    {
      var file := files[i];
      pdfFiles := pdfFiles + [PdfEntry(DisplayName(file), file, "/pdf/view/" + file, "/pdf/download/" + file)];
      i := i + 1;
    }
  }

  /** What globbing the directory `dir` yields, `listdir` giving the order of
      its children; nothing when it is not a directory. */
  function Globbed(fs: FileTree, cwd: seq<string>, dir: Path, listdir: seq<string> -> seq<string>): seq<string> {
    match Lookup(fs, Start(cwd, dir), dir.parts)
    case Some(k) => if fs[k] == Dir then Matches(listdir(k)) else []
    case None => []
  }

  /** The listing and the tree left behind. */
  function PdfListing(fs: FileTree, cwd: seq<string>, listdir: seq<string> -> seq<string>): (r: (Result<seq<PdfEntry>>, FileTree))
    ensures r.1 == PdfDir(fs, cwd).1
    ensures r.0.Err? <==> PdfDir(fs, cwd).0.Err?
    ensures r.0.Err? ==> r.0.code == 500
  {
    var r, f := PdfDir(fs, cwd).0, PdfDir(fs, cwd).1;
    if r.Err? then (Err(r.code), f)
    else
      var files := Globbed(f, cwd, r.value, listdir);
      (Ok(seq(|files|, i requires 0 <= i < |files| => EntryFor(files[i]))), f)
  }

  method ListPdfs(fs: FileTree, cwd: seq<string>, listdir: seq<string> -> seq<string>)
    returns (r: Result<seq<PdfEntry>>, fs': FileTree)
    ensures (r, fs') == PdfListing(fs, cwd, listdir)
  {
    var pdfDir;
    pdfDir, fs' := GetPdfDir(fs, cwd);
    if pdfDir.Err? {
      return Err(pdfDir.code), fs';
    }
    var files := Globbed(fs', cwd, pdfDir.value, listdir);
    var pdfFiles := PdfEntries(files);
    assert pdfFiles == seq(|files|, i requires 0 <= i < |files| => EntryFor(files[i]));
    r := Ok(pdfFiles);
  }

  /** The listing has one row per matching entry of the chosen directory,
      files and directories alike, and no other. */
  lemma ListingIsGlob(fs: FileTree, cwd: seq<string>, listdir: seq<string> -> seq<string>, n: string)
    requires Valid(fs) && Normal(cwd) && PdfListing(fs, cwd, listdir).0.Ok?
    requires Lists(PdfDir(fs, cwd).1, listdir)
    ensures IsDir(PdfDir(fs, cwd).1, cwd, PdfDir(fs, cwd).0.value)
    ensures var dir, f := PdfDir(fs, cwd).0.value, PdfDir(fs, cwd).1;
      var entries := PdfListing(fs, cwd, listdir).0.value;
      var k := Lookup(f, cwd, dir.parts).value;
      && ((exists i :: 0 <= i < |entries| && entries[i].filename == n) <==> Within(k, n) in f && GlobMatch(n))
      && forall i, j :: 0 <= i < j < |entries| ==> entries[i].filename != entries[j].filename
  {
    PdfDirIsDirectory(fs, cwd);
    var dir, f := PdfDir(fs, cwd).0.value, PdfDir(fs, cwd).1;
    var files := Globbed(f, cwd, dir, listdir);
    var entries := PdfListing(fs, cwd, listdir).0.value;
    assert forall i :: 0 <= i < |entries| ==> entries[i].filename == files[i];
    if n in files {
      var i :| 0 <= i < |files| && files[i] == n;
      assert entries[i].filename == n;
    }
    ListingRowsDistinct(fs, cwd, listdir);
  }

  /** No two rows of the listing are for the same file. */
  lemma ListingRowsDistinct(fs: FileTree, cwd: seq<string>, listdir: seq<string> -> seq<string>)
    requires Valid(fs) && Normal(cwd) && PdfListing(fs, cwd, listdir).0.Ok?
    requires Lists(PdfDir(fs, cwd).1, listdir)
    ensures var entries := PdfListing(fs, cwd, listdir).0.value;
      forall i, j :: 0 <= i < j < |entries| ==> entries[i].filename != entries[j].filename
  {
    PdfDirIsDirectory(fs, cwd);
    var dir, f := PdfDir(fs, cwd).0.value, PdfDir(fs, cwd).1;
    var k := Lookup(f, cwd, dir.parts).value;
    var files := Globbed(f, cwd, dir, listdir);
    assert files == Matches(listdir(k));
    MatchesDistinct(listdir(k));
    var entries := PdfListing(fs, cwd, listdir).0.value;
    assert forall i :: 0 <= i < |entries| ==> entries[i].filename == files[i];
  }

  // ----- Viewing and downloading: view_pdf, download_pdf -----

  /** What the viewer page is given. */
  datatype PdfView = PdfView(pdfName: string, pdfUrl: string)

  /** `FileResponse(pdf_path, media_type="application/pdf", filename=filename)` */
  datatype PdfDownload = PdfDownload(path: Path, mediaType: string, filename: string)

  /** The check both handlers make: `dir / filename` exists and the
      lower-cased name ends in `.pdf`. Nothing else is checked: `..` is not
      refused and a directory with such a name passes. */
  predicate Accepts(fs: FileTree, cwd: seq<string>, dir: Path, filename: string) {
    Exists(fs, cwd, Div(dir, Parse(filename))) && EndsWith(Lower(filename), ".pdf")
  }

  function ViewIn(fs: FileTree, cwd: seq<string>, dir: Path, filename: string): (r: Result<PdfView>)
    ensures r.Ok? <==> Accepts(fs, cwd, dir, filename)
    ensures r.Err? ==> r.code == 404
  {
    if !Accepts(fs, cwd, dir, filename) then Err(404)
    else Ok(PdfView(DisplayName(Name(Div(dir, Parse(filename)))), "/pdf/download/" + filename))
  }

  function DownloadIn(fs: FileTree, cwd: seq<string>, dir: Path, filename: string): (r: Result<PdfDownload>)
    ensures r.Ok? <==> Accepts(fs, cwd, dir, filename)
    ensures r.Err? ==> r.code == 404
    ensures r.Ok? ==> r.value.mediaType == "application/pdf" && r.value.filename == filename
  {
    if !Accepts(fs, cwd, dir, filename) then Err(404)
    else Ok(PdfDownload(Div(dir, Parse(filename)), "application/pdf", filename))
  }

  /** `view_pdf(filename)` and the tree left behind by its `get_pdf_dir`. */
  function ViewPdf(fs: FileTree, cwd: seq<string>, filename: string): (r: (Result<PdfView>, FileTree))
    ensures r.1 == PdfDir(fs, cwd).1
    ensures r.0.Err? ==> r.0.code == 404 || r.0.code == 500
    ensures PdfDir(fs, cwd).0.Ok? ==> (r.0.Ok? <==> Accepts(r.1, cwd, PdfDir(fs, cwd).0.value, filename))
  {
    var r, f := PdfDir(fs, cwd).0, PdfDir(fs, cwd).1;
    if r.Err? then (Err(r.code), f) else (ViewIn(f, cwd, r.value, filename), f)
  }

  /** `download_pdf(filename)` and the tree left behind. */
  function DownloadPdf(fs: FileTree, cwd: seq<string>, filename: string): (r: (Result<PdfDownload>, FileTree))
    ensures r.1 == PdfDir(fs, cwd).1
    ensures r.0.Err? ==> r.0.code == 404 || r.0.code == 500
    ensures PdfDir(fs, cwd).0.Ok? ==> (r.0.Ok? <==> Accepts(r.1, cwd, PdfDir(fs, cwd).0.value, filename))
  {
    var r, f := PdfDir(fs, cwd).0, PdfDir(fs, cwd).1;
    if r.Err? then (Err(r.code), f) else (DownloadIn(f, cwd, r.value, filename), f)
  }

  /** The two handlers accept the same requests, fail with the same code,
      and the viewer links to the download of the same name. */
  lemma ViewAndDownloadAgree(fs: FileTree, cwd: seq<string>, filename: string)
    ensures ViewPdf(fs, cwd, filename).0.Ok? <==> DownloadPdf(fs, cwd, filename).0.Ok?
    ensures ViewPdf(fs, cwd, filename).0.Err? ==>
      ViewPdf(fs, cwd, filename).0.code == DownloadPdf(fs, cwd, filename).0.code
      && ViewPdf(fs, cwd, filename).0.code in {404, 500}
    ensures ViewPdf(fs, cwd, filename).0.Ok? ==>
      ViewPdf(fs, cwd, filename).0.value.pdfUrl == "/pdf/download/" + DownloadPdf(fs, cwd, filename).0.value.filename
  {
  }

  /** `s.lower()` keeps a lower-case suffix. */
  lemma LowerEndsWith(s: string, suffix: string)
    requires EndsWith(s, suffix) && Lower(suffix) == suffix
    ensures EndsWith(Lower(s), suffix)
  {
    var d := |s| - |suffix|;
    forall i | 0 <= i < |suffix| ensures Lower(s)[d + i] == suffix[i] {
      assert s[d + i] == suffix[i];
      assert Lower(suffix)[i] == LowerChar(suffix[i]);
    }
  }

  /** Every file the listing shows can be viewed and downloaded, under the
      display name and download link the listing gives it (the handlers
      look the directory up again, which changes nothing:
      `PdfDirIdempotent`). */
  lemma ListedIsServed(fs: FileTree, cwd: seq<string>, listdir: seq<string> -> seq<string>, i: nat)
    requires Valid(fs) && Normal(cwd) && PdfListing(fs, cwd, listdir).0.Ok?
    requires Lists(PdfDir(fs, cwd).1, listdir)
    requires i < |PdfListing(fs, cwd, listdir).0.value|
    ensures var e, f := PdfListing(fs, cwd, listdir).0.value[i], PdfDir(fs, cwd).1;
      && ViewPdf(f, cwd, e.filename).0 == Ok(PdfView(e.name, e.download))
      && DownloadPdf(f, cwd, e.filename).0.Ok?
      && e.path == "/pdf/view/" + e.filename
  {
    PdfDirIsDirectory(fs, cwd);
    PdfDirIdempotent(fs, cwd);
    var dir, f := PdfDir(fs, cwd).0.value, PdfDir(fs, cwd).1;
    var files := Globbed(f, cwd, dir, listdir);
    var n := files[i];
    assert PdfListing(fs, cwd, listdir).0.value[i] == EntryFor(n);
    var k := Lookup(f, cwd, dir.parts).value;
    assert n in files;
    ChildAccepted(f, cwd, dir, k, n);
    assert PdfDir(f, cwd) == PdfDir(fs, cwd);
    assert ViewPdf(f, cwd, n).0 == ViewIn(f, cwd, dir, n);
    assert DownloadPdf(f, cwd, n).0 == DownloadIn(f, cwd, dir, n);
  }

  /** A matching entry of the directory `dir` stands at `dir / n` and passes
      the handlers' check. */
  lemma ChildAccepted(f: FileTree, cwd: seq<string>, dir: Path, k: seq<string>, n: string)
    requires Valid(f) && !dir.absolute && Lookup(f, cwd, dir.parts) == Some(k)
    requires Within(k, n) in f && GlobMatch(n)
    ensures Accepts(f, cwd, dir, n) && Name(Div(dir, Parse(n))) == n
  {
    assert ValidName(n);
    ParseName(n);
    var full := Div(dir, Parse(n));
    assert full == Path(false, dir.parts + [n]);
    LookupAppend(f, cwd, dir.parts, [n]);
    assert Lookup(f, k + [n], []) == Some(k + [n]);
    assert Lookup(f, k, [n]) == Some(k + [n]);
    LowerDotPdf();
    LowerEndsWith(n, ".pdf");
  }

  lemma LowerDotPdf()
    ensures Lower(".pdf") == ".pdf"
  {
  }

  /** Name matching differs between the two sides: `A.PDF` is not globbed,
      but the handlers accept its name. */
  lemma UpperCaseNotListed()
    ensures !GlobMatch("A.PDF") && EndsWith(Lower("A.PDF"), ".pdf")
  {
    assert "A.PDF"[1..] == ".PDF";
    assert Lower("A.PDF")[1..] == ".pdf";
  }
}
