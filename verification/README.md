# Wiki export and minify pipeline, modelled in Dafny

`index.js` exports a wiki space through a remote HTML-export service and
stages the unpacked archive under `src`. It then walks `src` and writes every
file into `docs` at the same relative path:

- scripts (`.js`) and stylesheets (`.css`) are minified with yuicompressor;
- if minification fails, the file is copied verbatim instead;
- every other file is copied verbatim.

This project models the deterministic decision layer under that plumbing.
Every external effect is an oracle or a parameter:

- **Poll** (`poll.dfy`): the `exportPages` do-while loop over a finite
  sequence of status responses. A missing filename and an empty filename
  both mean "keep polling", which is JavaScript truthiness.
- **Walk** (`walk.dfy`): `listFiles` over a directory tree of `Entry`/`Dir`
  nodes. It is a depth-first flatten in listing order, because
  `Promise.all` keeps the order of `readdir`.
- **Paths** (`paths.dfy`):
  - classification by suffix: `.js` first, then `.css`, otherwise other;
  - the output path `["docs"] + s[1..]` and its directory
    `["docs"] + s[1..|s|-1]`, built from a path given as its segment
    sequence `s`.
- **Transform** (`transform.dfy`):
  - `compress`, `copy` and one iteration of `main`'s loop, over a file system
    modelled as a map from paths to bytes plus a set of directories;
  - the loop itself;
  - a declarative reference `Expected` for the file system the loop leaves
    behind.

  The minifier is an oracle `(Bytes, Lang) -> Err | Ok(data)`.
- **Pipeline** (`pipeline.dfy`): `main` up to the redirects overlay. It
  polls, lists `src`, and processes every listed file.
- **Tables** (`tables.dfy`) and **Wrappers** (`wrappers.dfy`): generic
  helpers, namely maps, images and sequences built from a sequence of items,
  and `Option`.

Notes on how the model reads the code:

- **Classification.** `main` classifies with `file.endsWith` on the whole
  joined path. The model classifies the file name (`KindOf`).
  `Paths.ClassifyByFileName` proves that both give the same kind.
- **Directory before minifier.** `compress` makes the destination directory
  before it calls the minifier. A failed compression therefore still leaves
  the directory behind, but writes no file.
- **Empty output.** `if (data)` rejects empty output, so `compress` succeeds
  only when there is no `err` and `data` is non-empty.
- **Reports.** Each file gets one report: its outcome (`Minified` or
  `Copied`) and which logger `main` calls. `logError` is used only for a
  script or stylesheet that fell back to a copy.
- **Staging is not cleared.** The code never clears `src` before
  extraction: the `rimraf` call at index.js:59 is commented out.
- **The redirects overlay.** `copySync('redirects', 'src')` (index.js:148)
  runs after the loop and writes into `src`, so it never touches `docs`. It
  is not modelled.

## Model

| member | source | states |
|---|---|---|
| Poll.Poll | index.js:52-57 | No result exactly when no response has a truthy filename. Otherwise the check count is between 1 and the number of responses, the response at that count is the first ready one, and the name returned is its non-empty filename. |
| Poll.PollIgnoresLaterResponses | index.js:52-57 | Responses after the first ready one are never consulted. |
| Poll.PollMatches | index.js:53-57 | A ready response with none ready before it determines the loop's result and its check count. |
| Poll.PollUntilReady | index.js:52-57 | The do-while loop checks at least once and stops at the first response with a truthy filename. It returns that filename, which is non-empty, and the number of checks equals that response's index plus one. |
| Poll.ExportPages | index.js:48-60 | The download is requested for the job's id, under the filename of the first ready status response. |
| Walk.ListFiles | index.js:64-71 | Every listed path lies strictly below the directory being listed. |
| Walk.ListNode | index.js:66-69 | One entry contributes only paths strictly below the directory being listed. |
| Walk.ListFilesConcat | index.js:66-70 | Listing a concatenation of entries is the concatenation of their listings: a depth-first, listing-order flatten. |
| Walk.ListFilesExact | index.js:64-71 | A path is listed if and only if it lies below the root and its relative part reaches a non-directory entry. |
| Walk.ListNodeExact | index.js:66-69 | Per entry: a path is in the entry's part of the listing if and only if its relative part reaches a file through that entry. |
| Walk.ReachesStartsWithName | index.js:67 | A relative path reached through an entry begins with that entry's name. |
| Walk.ListFilesDistinct | index.js:64-71 | When sibling names are distinct, as `readdir` guarantees, every file is listed exactly once. |
| Walk.NodeFileNotDir | index.js:68 | No relative path reaches both a file and a directory. |
| Walk.FilesAreNotDirs | index.js:68 | No path names both a file and a directory, so with `Walk.ListFilesExact` no directory entry is ever listed. |
| Paths.Classify | index.js:125-141 | Script exactly when the name ends in `.js`; Style exactly when it does not end in `.js` but ends in `.css`; Other exactly when it ends in neither. |
| Paths.SuffixesExclusive | index.js:125-133 | No name ends in both `.js` and `.css`. |
| Paths.ClassifyOrderIrrelevant | index.js:125-141 | Testing `.css` before `.js` would classify every name the same way. |
| Paths.ClassifyCaseSensitive | index.js:125-141 | The test is exact and case-sensitive: `a.CSS`, `x.JS` and `x.json` are Other, `main.js` is Script and `style.css` is Style. |
| Paths.EndsWithAfterSeparator | index.js:125 | A suffix without `/` ends the joined path exactly when it ends the last segment. |
| Paths.ClassifyByFileName | index.js:122-125 | Classifying the whole joined path gives the same kind as classifying the file name alone. |
| Paths.Mirror | index.js:75 | The destination starts with `docs` and, for a file of at least one segment, has as many segments as the file. |
| Paths.DirOf | index.js:76 | The directory made starts with `docs` and, for a file of at least two segments, has one segment fewer than the file. |
| Paths.Unmirror | index.js:102 | Maps a destination back to a staged path of the same length. |
| Paths.MirrorKeepsSegments | index.js:75-76 | The destination keeps every segment of the file after the first, and the directory keeps every middle segment. |
| Paths.DirOfThenName | index.js:75-76 | The directory made for a file, followed by the file's name, is exactly its destination. |
| Paths.UnmirrorMirror | index.js:102 | Mirroring is inverted on staged files. |
| Paths.MirrorUnmirror | index.js:102 | Every path under `docs` is the destination of some staged file. |
| Paths.MirrorInjective | index.js:102-103 | Two staged files share a destination if and only if they are the same file. |
| Paths.MirrorNotStaged | index.js:75 | No destination lies under the staging root. |
| Transform.Mkdir | index.js:77 | Recursive mkdir leaves the files alone and only adds directories. The directory and each of its ancestors exist afterwards, and every new directory is one of them. |
| Transform.MkdirIdempotent | index.js:104 | Making an existing directory again changes nothing. |
| Transform.Compress | index.js:73-98 | The destination's directory is made whatever the minifier answers. The attempt succeeds exactly when there is no error and the data is non-empty; on success only the destination is written, with the minified data, and on failure no file changes. |
| Transform.Copy | index.js:101-106 | The destination holds exactly the source bytes, no other file changes, and its directory is made. |
| Transform.FileResultGuarantees | index.js:125-144 | A copied file holds the original bytes, other files are always copied, and a file is minified exactly when it is a script or stylesheet the minifier accepted. Minified output is the minifier's non-empty data. `logError` is used exactly for a script or stylesheet the minifier rejected. |
| Transform.Process | index.js:124-144 | One iteration writes only the file's own destination, with the file's result. It adds the destination's directory and its ancestors, and reports the file's outcome and logger. |
| Transform.MirrorInjectiveOn | index.js:102 | Listed staged files have pairwise distinct destinations. |
| Transform.ExpectedContents | index.js:123-145 | After the loop the paths are exactly the original ones plus the destinations. Every listed file's destination holds that file's result, and every staged file and every path that is not a destination keeps its contents. |
| Transform.FallbackEverywhere | index.js:126-140 | With a minifier that never succeeds, every destination holds exactly its staged file's bytes. |
| Transform.ExpectedIdempotent | index.js:123-145 | Running the loop again over its own output changes nothing. |
| Transform.OutputsAvoidStaged | index.js:102 | No destination is written over a staged file. |
| Transform.ExpectedAdvance | index.js:123-145 | One more iteration moves the file system from the reference for a prefix of the listing to the reference for the next prefix; the next file is still unchanged. |
| Transform.ReportsIndex | index.js:123-144 | The reports list has one entry per listed file, and the entry at each position is the report for the file at that position. |
| Transform.AncestorsMembers | index.js:77 | A path is one of the directories recursive mkdir makes exactly when it is a non-empty prefix of the directory. |
| Transform.MadeDirsSnoc | index.js:77 | One more file adds exactly its destination directory and that directory's ancestors. |
| Transform.MadeDirsSound | index.js:77 | Every directory the loop makes is an ancestor of some listed file's destination directory. |
| Transform.MadeDirsComplete | index.js:77 | Every listed file's destination directory, and each of its ancestors, is made. |
| Transform.LoopStep | index.js:123-145 | One iteration keeps the file system, directories and reports equal to the references one file further. |
| Transform.StagedKept | index.js:123-145 | The next listed file is still present with its original contents. |
| Transform.ProcessAll | index.js:122-145 | Exactly one report per listed file, in listing order. The resulting files are the reference `Expected`, and the directories are the originals plus those of the destinations. |
| Pipeline.ListedAreStaged | index.js:122 | Every path `listFiles("src")` yields lies under `src`. |
| Pipeline.ListingIsStaged | index.js:122 | `listFiles("src")` yields exactly the paths under `src` that name staged files. |
| Pipeline.ListedArePresent | index.js:122 | When every staged file has contents, so does every path `listFiles("src")` yields. |
| Pipeline.StagedFilesMirrored | index.js:122-145 | No staged file is lost: each one's destination holds its result. |
| Pipeline.ReachesNonEmpty | index.js:67 | A staged file's path relative to `src` has at least one segment. |
| Pipeline.Run | index.js:117-145 | Polls, then processes the listing once per file in order. It asks for the first ready filename, lists each staged file once when sibling names are distinct, leaves the reference output, and gives every staged file its result. |

## Left out

- Network I/O (`startExport`, `checkStatus`, `downloadFile`; axios authentication, TLS and header defaults; index.js:22-44) is replaced by the finite sequence of status responses. The job id is a parameter.
- The unzip stream, its `finish` event and the one-second sleeps (index.js:40-42, 46, 54, 61) are not modelled. The extracted archive is a parameter: the staged tree and the file system that holds its contents.
- Clearing `src` before extraction is not modelled. The `rimraf` call is commented out (index.js:10, 59).
- yuicompressor's internals and options (index.js:79-85) are not modelled. The minifier is an oracle over the file's bytes and the compressor type.
- `path.join` normalisation, `split("/")` and `__dirname` are not modelled. Paths are sequences of well-formed segments, and the output root is the segment `docs`.
- File-system exceptions are not modelled: from `mkdirSync` (index.js:77, 104), from `writeFileSync` inside the callback (index.js:92), from `copyFileSync` (index.js:105), and from `copy` inside a `catch` or for an other file outside any `try` (index.js:130, 138, 142). A throw from `mkdirSync` at index.js:77 runs inside the promise executor, so it rejects `compress` and `main` falls back to `copy`, whose own `mkdirSync` (index.js:104) meets the same error and escapes. A throw from `writeFileSync` inside the minifier's callback escapes that callback uncaught. The other throws listed here escape `main`'s loop directly. In the model, mkdir, writes and copies are total.
- The model does not keep files and directories apart. A destination may be written while the same path is in the directory set, or the reverse, where Node would fail with EISDIR or EEXIST; no contract here promises that the two stay disjoint.
- A listed file missing from the file system is not modelled. `Transform.ProcessAll` requires every listed file to be present, and `Pipeline.Run` requires every staged file of the tree to be present, as holds for a tree nothing else changes during the run.
- Console output and ANSI colours (index.js:108-115) are not modelled. Only which logger is called is kept, as the report's signal.
- The status `progress` field is carried by `Poll.Status` but never read, since the source only logs it.
- The `copySync('redirects', 'src')` overlay (index.js:148) is not modelled. It runs after the loop and writes into `src`, not `docs`.
- `charset` (utf8) encoding of the minifier's string output is not modelled. Minified data is bytes.
- Poll.PollUntilReady: requires that some response has a truthy filename. The source loop has no bound and would poll forever; the function `Poll.Poll` covers the other case by returning no result.
- Poll.ExportPages: requires a terminating response sequence, for the same reason.
- Walk.ListFilesDistinct: assumes distinct sibling names, which a real directory always has. The tree datatype alone does not guarantee it.
- Transform.ProcessAll: its directories and files are stated as equal to the references `MadeDirs` and `Expected`. Their path-by-path meaning is in `Transform.ExpectedContents`, `Transform.MadeDirsSound` and `Transform.MadeDirsComplete`.
- Pipeline.Run: its reports and directories are stated as equal to the references `Reports` and `MadeDirs`. Their item-by-item meaning is in `Transform.ReportsIndex`, `Transform.MadeDirsSound` and `Transform.MadeDirsComplete`.
