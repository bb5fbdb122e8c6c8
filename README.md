# Document routers of the PDF/Markdown viewer, modelled in Dafny

The web application serves two document trees through two routers. This
project models the part of each router that decides things: *which* directory
is served, *which* path a request may reach, and *what* a listing or a page
contains. It then proves properties of that model.

- **Markdown router** (`app/routers/markdown.py`):
  - `get_markdown_dir` picks the document root from four candidates. When none
    is usable it creates `pdf_uploads` under the working directory.
  - `get_subfolder_path` confines a requested folder to the root with a
    *string* prefix test. It answers 400 or 404.
  - `create_breadcrumbs` builds the breadcrumb trail.
  - `list_markdown_files` walks a folder. Directories go in one list and
    `.md`/`.markdown` files in another. Each child gets a root-relative path.
    Both lists are sorted by lower-cased name.
  - `download_markdown` and `view_markdown` run their own acceptance checks.
    `view_markdown` also works out the "back" link.
- **PDF router** (`app/routers/pdfs.py`):
  - `get_pdf_dir` picks the first candidate that holds a `*.pdf` entry. Failing
    that, it creates `app/pdfs`.
  - `list_pdfs` builds one row per globbed name: display name, file name, view
    link and download link.
  - `view_pdf` and `download_pdf` share one check: the path exists and the
    lower-cased name ends in `.pdf`. Anything else is 404.

The filesystem is a value, `FileSystem.FileTree`: a map from absolute
component lists to `Dir` or `File`.

- `exists()` and `is_dir()` walk that map the way the operating system does:
  every step needs a directory, and `..` goes to the parent. `IsFile`, the
  same walk ending at a file, stands for `open()` succeeding in
  `view_markdown`.
- `resolve()` is lexical normalisation against the working directory. It
  raises (`ResolveRaises`) on a NUL byte.
- `mkdir(parents=True, exist_ok=True)` is `FileSystem.Mkdir`. It fails when a
  file is in the way.
- The order in which `iterdir()` and `glob()` enumerate children is a
  parameter, `listdir`. `FileSystem.Enumerates` and `FileSystem.Lists` tie it
  to the map, and the listing lemmas of both routers assume `Lists`.
- Handlers that may create directories return the new tree next to their
  result.
- HTTP errors are `Err(code)`. An exception that escapes a handler is
  `Err(500)`.

The loops of the source are methods. Each is proved equal to a specification
function: `GetMarkdownDir`, `CreateBreadcrumbs`, `PartitionChildren`,
`ListMarkdownFiles`, `GetPdfDir`, `PdfEntries` and `ListPdfs`. The properties
are lemmas about those functions.

Behaviour of the code worth noting:

- A folder of `/` is not "the root". It resolves to `/`, fails the prefix
  test and gets 400.
- `download_markdown` answers 500 for a path that cannot be resolved, not 400.
- `view_markdown` does not use the Markdown root. It joins the request to the
  relative path `pdf_uploads` and makes no containment check. It accepts only
  the suffix `.md`, although the listing also offers `.markdown`.
- The containment test is a string prefix test. It admits a sibling of the
  root whose name extends the root's name (`/x/docs` admits `/x/docs-other`).
  The lemmas state this gap as written.
- `glob("*.pdf")` is case-sensitive on POSIX. It also matches directories,
  hidden names and the bare name `.pdf`.

## Model

| member | source | states |
|---|---|---|
| `Search.FirstWhere` | app/routers/markdown.py:32-34 | the position found is in range or one past the end, and an element found passes the test; the same loop is at pdfs.py:25-27 |
| `Search.FirstWhereIsFirst` | app/routers/pdfs.py:25-27 | every element before the position found fails the test, so the first passing one wins; the same loop is at markdown.py:32-34 |
| `Markdown.Candidates` | app/routers/markdown.py:24-29 | the four locations tried, in order |
| `Markdown.FirstUsable` | app/routers/markdown.py:32-34 | the first-hit search `Search.FirstWhere` with the test `exists() and is_dir()` |
| `Markdown.Usable` | app/routers/markdown.py:33 | the candidate test: the path exists and is a directory |
| `Markdown.MarkdownDir` | app/routers/markdown.py:18-39 | the only way the root lookup fails is the uncaught `mkdir` error, 500 |
| `Markdown.GetMarkdownDir` | app/routers/markdown.py:18-39 | the loop returns what `MarkdownDir` specifies, and an absolute, canonical root |
| `Markdown.CandidatesResolved` | app/routers/markdown.py:24-29 | with a canonical working directory, all four candidates are absolute and already resolved |
| `Markdown.MarkdownDirIsDirectory` | app/routers/markdown.py:32-39 | the tree stays real and only grows; the root returned is an absolute directory on the new tree |
| `Markdown.FallbackIsDirectory` | app/routers/markdown.py:37-39 | a `cwd/pdf_uploads` that has been created passes the candidate test, and resolving it changes nothing |
| `Markdown.MarkdownDirIdempotent` | app/routers/markdown.py:18-39 | a second lookup on the tree the first left behind returns the same root and creates nothing |
| `Markdown.SubfolderPath` | app/routers/markdown.py:42-65 | only 400 or 404; no folder gives the root; an accepted folder is absolute, canonical, passes the prefix test and exists |
| `Markdown.ContainmentBeforeExistence` | app/routers/markdown.py:51-60 | failing the prefix test is 400 whatever the tree holds; passing it and not existing is 404; acceptance holds exactly when both pass |
| `Markdown.NulIsBadRequest` | app/routers/markdown.py:61-65 | a folder with a NUL byte makes `resolve()` raise, which is reported as 400 |
| `Markdown.ExtensionPassesPrefixTest` | app/routers/markdown.py:55 | every path whose components extend the root's passes the string prefix test |
| `Markdown.SiblingPassesPrefixTest` | app/routers/markdown.py:55 | `/x/docs-other` passes the prefix test for the root `/x/docs`, though its components do not extend the root's |
| `Markdown.SiblingFolderAdmitted` | app/routers/markdown.py:42-65 | with the root `/x/docs`, the folder `../docs-other` is accepted and resolves to the sibling |
| `Markdown.FolderSegments` | app/routers/markdown.py:75-80 | the pieces kept are non-empty and contain no `/` |
| `Markdown.TrailOf` | app/routers/markdown.py:70-85 | a trail is one crumb longer than its segments and starts at the home crumb |
| `Markdown.Trail` | app/routers/markdown.py:68-85 | the trail of the folder: the trail of its non-empty `/`-separated pieces |
| `Markdown.TrailStep` | app/routers/markdown.py:78-83 | an empty piece leaves trail and path unchanged; any other piece appends one crumb and extends the joined path by `/` and the piece |
| `Markdown.CreateBreadcrumbs` | app/routers/markdown.py:68-85 | the loop builds exactly the trail of the folder's non-empty segments |
| `Markdown.TrailOfAt` | app/routers/markdown.py:82-83 | crumb `k` carries segment `k-1` and links to the first `k` segments joined by `/` |
| `Markdown.TrailShape` | app/routers/markdown.py:68-85 | home first and one crumb per non-empty segment, so no folder or an empty one gives just home |
| `Markdown.TrailCrumb` | app/routers/markdown.py:78-83 | each crumb after home is named after its segment and links to the segments up to it joined by `/` |
| `Markdown.TrailEndsAtFolder` | app/routers/markdown.py:75-83 | for a folder with no empty piece, the trail has one crumb per piece after home, and the last crumb links to the folder itself |
| `Markdown.TrailNested` | app/routers/markdown.py:82 | each crumb's folder is its predecessor's folder, a `/`, and its own name |
| `Markdown.TrailOfNested` | app/routers/markdown.py:82 | in any trail, each crumb after the first folder link extends its predecessor's link by `/` and its own name |
| `Markdown.TrailLinksRelative` | app/routers/markdown.py:82-83 | the folder in a crumb link never starts with `/`, even for a folder given as `/a` |
| `Markdown.TrailExample` | app/routers/markdown.py:75-83 | `/a//b/` gives home, `a` (link `a`) and `b` (link `a/b`) |
| `Markdown.Child` | app/routers/markdown.py:101 | `current_dir / name`, the path `iterdir()` yields for a child |
| `Markdown.IsMarkdownName` | app/routers/markdown.py:108 | the listing's file test: the lower-cased suffix is `.md` or `.markdown` |
| `Markdown.RelPath` | app/routers/markdown.py:103 | a root-relative path with backslashes replaced contains no backslash |
| `Markdown.Partition` | app/routers/markdown.py:99-111 | the loop over the children fails only with 500 |
| `Markdown.Classify` | app/routers/markdown.py:100-111 | one child is handled without any failure other than 500 |
| `Markdown.PartitionStep` | app/routers/markdown.py:99-111 | handling one more child is handling the child after the ones before it |
| `Markdown.PartitionErrSticks` | app/routers/markdown.py:101 | once `relative_to` has raised for a child, the whole listing has failed |
| `Markdown.PartitionChildren` | app/routers/markdown.py:95-111 | the loop computes exactly `Partition` |
| `Markdown.PartitionSound` | app/routers/markdown.py:99-111 | only directory children are in `directories`; only non-directories with a Markdown suffix are in `files`; each path is the child's root-relative path, with no backslash |
| `Markdown.PartitionComplete` | app/routers/markdown.py:99-111 | every directory child is in `directories`, and every non-directory child with a Markdown suffix is in `files` |
| `Markdown.PartitionNoBackslash` | app/routers/markdown.py:103-109 | no path in either list of a successful listing contains a backslash |
| `Markdown.PartitionUnderRoot` | app/routers/markdown.py:99-111 | for a folder whose components extend the root's, the loop never fails |
| `Markdown.SiblingListingFails` | app/routers/markdown.py:99-103 | listing the admitted sibling `/x/docs-other` fails with 500 once it holds a directory |
| `Markdown.InsertByName` | app/routers/markdown.py:116-117 | insertion into a name-sorted list keeps it sorted and adds exactly that entry |
| `Markdown.SortByName` | app/routers/markdown.py:116-117 | the result is sorted by lower-cased name and is a permutation of the input |
| `Markdown.ListingOf` | app/routers/markdown.py:87-128 | the listing fails only with 400, 404 or 500 |
| `Markdown.ListMarkdownFiles` | app/routers/markdown.py:87-128 | the handler computes `ListingOf`; both lists it returns are sorted by lower-cased name |
| `Markdown.ListingContents` | app/routers/markdown.py:92-128 | a listing that succeeds comes from a directory; its lists are sorted permutations of what the loop collected; it carries the folder's trail and `folder or ""` |
| `Markdown.ListedFolder` | app/routers/markdown.py:94-101 | the folder a successful listing enumerates is a directory entry of the tree, named by absolute canonical components |
| `Markdown.ChildLookup` | app/routers/markdown.py:101-102 | under such a folder, a child with a valid name is a directory, or a file, exactly when the tree says so |
| `Markdown.ListedRowsExist` | app/routers/markdown.py:99-117 | when `listdir` tells the truth, every `directories` row is a subdirectory of the folder and every `markdown_files` row a Markdown-named file in it that `open()` can read |
| `Markdown.ListedDirsExist` | app/routers/markdown.py:101-107 | every `directories` row names a subdirectory of the folder |
| `Markdown.ListedFilesExist` | app/routers/markdown.py:108-113 | every `markdown_files` row names a readable Markdown-named file in the folder |
| `Markdown.DirRowExists` | app/routers/markdown.py:101-107 | one `directories` row, over a truthful enumeration, is a subdirectory |
| `Markdown.FileRowExists` | app/routers/markdown.py:108-113 | one `markdown_files` row, over a truthful enumeration, is a readable Markdown-named file |
| `Markdown.FolderEntriesListed` | app/routers/markdown.py:99-117 | when `listdir` tells the truth, every subdirectory of the folder, and every file in it with a Markdown suffix, has a row |
| `Markdown.CurrentFolder` | app/routers/markdown.py:126 | `folder or ""` |
| `Markdown.RootAlwaysLists` | app/routers/markdown.py:92-111 | with no folder, the listing succeeds whenever the root was found or made |
| `Markdown.DownloadCheck` | app/routers/markdown.py:188-201 | only 404 or 500; 500 exactly when `resolve()` raises; a resolved path that does not exist is 404; a file that is served exists, passes the prefix test and is named after its last component |
| `Markdown.DownloadMarkdown` | app/routers/markdown.py:183-201 | the handler fails only with 404 or 500 and leaves the tree the root lookup left |
| `Markdown.DownloadServed` | app/routers/markdown.py:186-197 | a served download is the check against the root `get_markdown_dir` returns, an absolute directory; the file exists and its string starts with the root's |
| `Markdown.DownloadAgreesWithSubfolder` | app/routers/markdown.py:186-201 | the download and folder checks accept the same non-empty paths at the same place; an unresolvable path is 500 against 400, a path failing the prefix test 404 against 400 |
| `Markdown.SiblingDownloadAdmitted` | app/routers/markdown.py:193 | the prefix gap reaches downloads: `../docs-other` is accepted for the root `/x/docs` |
| `Markdown.BackUrl` | app/routers/markdown.py:164 | the link is `/pdf/` exactly when the parent folder is empty or `.` |
| `Markdown.ViewMarkdown` | app/routers/markdown.py:132-180 | only 404 or 500; a missing path or a suffix other than `.md` is 404; an accepted request names a file with lower-case suffix `.md` (joined to `pdf_uploads`, but not confined to it), titled by its name |
| `Markdown.ViewFile` | app/routers/markdown.py:146-164 | only 404 or 500; a missing path or a suffix other than `.md` is 404; what is accepted is a file with lower-case suffix `.md` |
| `Markdown.ViewServesMarkdownFile` | app/routers/markdown.py:139-176 | a relative request with at least one component whose joined path is a file with lower-case suffix `.md` is served, titled by its last component |
| `Markdown.ViewAcceptedParent` | app/routers/markdown.py:139-164 | an accepted request is a relative path with at least one component, and its back link is built from its components but the last |
| `Markdown.BackUrlOfFolder` | app/routers/markdown.py:160-164 | for parent components none of which is empty or `.`, the back link is `/pdf/` when there are none and otherwise `/pdf/?folder=` followed by them joined with `/` |
| `Markdown.ViewBackUrl` | app/routers/markdown.py:160-164 | an accepted path is relative; its back link is `/pdf/` for a file directly in `pdf_uploads`, else the folder of the request's parent, joined by `/` |
| `Markdown.ViewRefusesMarkdownSuffix` | app/routers/markdown.py:108 | `notes.markdown` is a listing name, yet the viewer answers 404 for it (the viewer's test is at line 146) |
| `Markdown.ViewTraversal` | app/routers/markdown.py:139-164 | `../secret.md` opens a file beside `pdf_uploads`, with the back link `/pdf/?folder=..` |
| `Pdfs.CandidatesParsed` | app/routers/pdfs.py:17-22 | the four candidates are the source's four strings parsed, the `./` forms equal to the plain ones |
| `Pdfs.HasPdfChildIff` | app/routers/pdfs.py:26 | a candidate has a PDF exactly when it is a directory with an entry matching `*.pdf` |
| `Pdfs.HasPdfChild` | app/routers/pdfs.py:26 | `any(path.glob("*.pdf"))` on the entry found: a directory with a matching child |
| `Pdfs.Usable` | app/routers/pdfs.py:26 | the candidate test: the path exists and holds a `*.pdf` entry |
| `Pdfs.GlobMatch` | app/routers/pdfs.py:26 | the pattern `*.pdf` on one name, case-sensitive |
| `Pdfs.Candidates` | app/routers/pdfs.py:17-22 | the four relative locations tried, in order |
| `Pdfs.FirstUsable` | app/routers/pdfs.py:25-27 | the first-hit search `Search.FirstWhere` with the test `exists() and any(glob("*.pdf"))` |
| `Pdfs.PdfDir` | app/routers/pdfs.py:16-32 | the result is a relative, non-empty path; the only failure is the uncaught `mkdir` error, 500 |
| `Pdfs.GetPdfDir` | app/routers/pdfs.py:16-32 | the loop returns what `PdfDir` specifies |
| `Pdfs.UsableUnder` | app/routers/pdfs.py:26 | on a real tree, a relative candidate is usable exactly when its entry under the working directory has a `*.pdf` entry |
| `Pdfs.FallbackAddsNoPdf` | app/routers/pdfs.py:30-31 | the directories the fallback creates give no candidate a PDF it did not already have |
| `Pdfs.FallbackIsDirectory` | app/routers/pdfs.py:29-31 | a successful fallback `mkdir` leaves a real tree in which `app/pdfs` is a directory |
| `Pdfs.FallbackKeepsUnusable` | app/routers/pdfs.py:25-31 | a candidate without a PDF still has none after the fallback creates `app/pdfs` |
| `Pdfs.PdfDirIsDirectory` | app/routers/pdfs.py:16-32 | the tree stays real and only grows; the directory returned is a directory; a candidate is returned only when it has a PDF; the tree changes only when no candidate has one |
| `Pdfs.PdfDirIdempotent` | app/routers/pdfs.py:16-32 | a second lookup on the tree the first left behind returns the same directory and creates nothing |
| `Pdfs.DisplayNameSpaces` | app/routers/pdfs.py:45 | the display name is as long as the stem, has a space exactly where the stem has `_` or a space, and contains no `_` |
| `Pdfs.DisplayName` | app/routers/pdfs.py:45 | the stem with `_` turned into spaces, then title-cased |
| `Pdfs.DisplayNameExample` | app/routers/pdfs.py:45 | `my_report.pdf` is shown as `My Report` |
| `Pdfs.Matches` | app/routers/pdfs.py:43 | a name is globbed exactly when it is a child whose name ends in `.pdf` |
| `Pdfs.MatchesDistinct` | app/routers/pdfs.py:43 | globbing distinct children yields distinct names |
| `Pdfs.PdfEntries` | app/routers/pdfs.py:43-50 | one row per globbed name, in order, each with the name's display name and links |
| `Pdfs.ListPdfs` | app/routers/pdfs.py:34-55 | the handler computes `PdfListing` |
| `Pdfs.PdfListing` | app/routers/pdfs.py:34-55 | the listing fails exactly when the directory lookup does, and then with 500; it leaves the tree `get_pdf_dir` left |
| `Pdfs.EntryFor` | app/routers/pdfs.py:44-48 | the row for a file: display name, file name, `/pdf/view/` and `/pdf/download/` links |
| `Pdfs.Globbed` | app/routers/pdfs.py:43 | the names `glob("*.pdf")` yields from the directory `dir`, in enumeration order |
| `Pdfs.ListingIsGlob` | app/routers/pdfs.py:40-50 | the directory listed is a directory; a name has a row exactly when it is an entry of that directory ending in `.pdf`; no two rows are for the same name |
| `Pdfs.ListingRowsDistinct` | app/routers/pdfs.py:43 | no two rows of the listing are for the same file name |
| `Pdfs.ViewIn` | app/routers/pdfs.py:62-70 | the request is served exactly when the shared check passes, and is otherwise 404 |
| `Pdfs.DownloadIn` | app/routers/pdfs.py:77-82 | the request is served exactly when the shared check passes, else 404; it is served as `application/pdf` under the requested name |
| `Pdfs.ViewAndDownloadAgree` | app/routers/pdfs.py:57-82 | view and download accept the same requests and fail with the same code, 404 or 500; the viewer links to the download of the same name |
| `Pdfs.ViewPdf` | app/routers/pdfs.py:57-70 | fails only with 404 or 500; once a directory is found, the request is served exactly when the shared check passes |
| `Pdfs.DownloadPdf` | app/routers/pdfs.py:72-82 | fails only with 404 or 500; once a directory is found, the request is served exactly when the shared check passes |
| `Pdfs.Accepts` | app/routers/pdfs.py:64 | the shared check: `dir / filename` exists and the lower-cased name ends in `.pdf` |
| `Pdfs.ChildAccepted` | app/routers/pdfs.py:62-64 | an entry of the directory whose name ends in `.pdf` exists at `dir / name` and passes the shared check |
| `Pdfs.ListedIsServed` | app/routers/pdfs.py:43-82 | every listed file can be viewed and downloaded; the page title is the row's display name and the PDF link is the row's download link |
| `Pdfs.UpperCaseNotListed` | app/routers/pdfs.py:43-80 | `A.PDF` is not globbed, but the handlers' lower-cased check accepts its name |
| `Strings.TitleAt` | app/routers/pdfs.py:45 | `.title()` upper-cases a character after a non-letter and lower-cases one after a letter |
| `Strings.TitleIdempotent` | app/routers/pdfs.py:45 | title-casing a title-cased string changes nothing |
| `Strings.SplitJoin` | app/routers/markdown.py:75 | joining the pieces of `split` with the separator gives the string back |
| `Strings.Split` | app/routers/markdown.py:75 | `str.split(sep)`: at least one piece, and no piece contains the separator |
| `Strings.Lower` | app/routers/markdown.py:108 | `str.lower()` on ASCII: same length, each character lower-cased, so no ASCII capital is left |
| `Strings.Title` | app/routers/pdfs.py:45 | `str.title()` on ASCII, character by character as `TitleAt` states |
| `Strings.StartsWith` | app/routers/markdown.py:55 | `str.startswith(prefix)` |
| `Strings.EndsWith` | app/routers/pdfs.py:64 | `str.endswith(suffix)` |
| `Strings.ReplaceChar` | app/routers/markdown.py:103 | `str.replace` of one character by another, position by position, after which the replaced character no longer occurs |
| `Strings.LexLe` | app/routers/markdown.py:116-117 | the order `sort` uses on the lower-cased names |
| `Strings.LexLeTotal` | app/routers/markdown.py:116-117 | any two sort keys are ordered one way or the other |
| `Strings.LexLeTransitive` | app/routers/markdown.py:116-117 | the order on sort keys is transitive |
| `Paths.RelativeTo` | app/routers/markdown.py:103 | a relative result, with the base's components followed by the result's making up the path |
| `Paths.Suffix` | app/routers/markdown.py:108 | a suffix is empty or starts with `.` and ends the name |
| `Paths.StemSuffix` | app/routers/pdfs.py:45 | a name is its stem followed by its suffix |
| `Paths.Stem` | app/routers/pdfs.py:45 | `Path.stem`: the name without its suffix |
| `Paths.Name` | app/routers/markdown.py:172 | `Path.name`: the last component, empty for no components |
| `Paths.Parent` | app/routers/markdown.py:160 | `Path.parent`: all components but the last |
| `Paths.Parse` | app/routers/markdown.py:140 | `Path(s)`: the components are neither empty nor `.` and contain no `/` |
| `Paths.Div` | app/routers/markdown.py:140 | `p / q`: `q` when it is absolute, else the components of both |
| `Paths.Normalize` | app/routers/markdown.py:52 | lexical normalisation: the result has no empty, `.` or `..` component and is no longer than the input |
| `Paths.NormalizeNormal` | app/routers/markdown.py:34 | normalising components that are already canonical changes nothing, so resolving a resolved path keeps it |
| `Paths.Resolve` | app/routers/markdown.py:52 | `resolve()`: the result is absolute and canonical |
| `Paths.ParsePair` | app/routers/pdfs.py:18 | `Path("a/b")` for two plain names is the relative path with those two components |
| `Paths.ResolveRaises` | app/routers/markdown.py:52 | `resolve()` raises `ValueError` exactly for a component with a NUL byte; that is 400 in `get_subfolder_path` (lines 62-65) and 500 in `download_markdown` |
| `Paths.Str` | app/routers/markdown.py:55 | `str(p)`: `/` and the components joined by `/` for an absolute path, `.` for no components |
| `FileSystem.Mkdir` | app/routers/markdown.py:38 | on success the target is a directory, every old entry is kept unchanged, and the new entries are prefixes of the target |
| `FileSystem.MkdirValid` | app/routers/pdfs.py:31 | creating directories keeps the tree real |
| `FileSystem.LookupNormal` | app/routers/markdown.py:33 | on a real tree, walking canonical components from a directory finds exactly the entry they name |
| `FileSystem.Lookup` | app/routers/markdown.py:33 | the operating system's walk: an entry found is in the tree |
| `FileSystem.Exists` | app/routers/markdown.py:33 | `p.exists()`: the walk finds an entry |
| `FileSystem.IsDir` | app/routers/markdown.py:33 | `p.is_dir()`: the walk finds a directory |
| `FileSystem.IsFile` | app/routers/markdown.py:150 | `open(p)` for reading succeeds: the walk finds a file |
| `FileSystem.Enumerates` | app/routers/markdown.py:101 | what `iterdir()` yields for a directory: each entry once, and nothing else |
| `FileSystem.Lists` | app/routers/pdfs.py:43 | `listdir` enumerates every directory of the tree truthfully |

## Left out

- FastAPI plumbing is not modelled: routing, query parsing, templates, `HTMLResponse`, and the debug prints.
- The content of a response is left out: Markdown to HTML conversion, reading and decoding a file, and the bytes a `FileResponse` sends.
- `ViewFile`: a Markdown file that exists but cannot be read is modelled only for a directory (500). Decoding failures, which also give 500, are not modelled.
- `DownloadCheck`: an accepted path that is a directory is modelled as accepted. The failure the framework raises later when it tries to send it is not modelled.
- File sizes in `list_pdfs` (`st_size` in MB, rounded) are floating point and are left out.
- Symbolic links, permissions and other operating-system errors are left out. `resolve()` is lexical.
- The `//` anchor that pathlib keeps for paths starting with exactly two slashes is left out.
- `lower()` and `title()` change ASCII letters only; Unicode case mapping is left out.
- Case-insensitive filesystems are left out. `glob` is modelled as on POSIX.
- `ListMarkdownFiles`: the source calls `get_markdown_dir()` again for every child. The model looks the root up once, which `MarkdownDirIdempotent` justifies.
- `ListedIsServed`: states that the handlers agree with the listing on the tree the listing left behind, not on a tree changed in between.
- `SortByName`: `list.sort` is stable. `SortByName` keeps entries with equal keys in their input order, but no lemma states stability.
- `main.py` and the JavaScript under `app/static` are not part of this model.
