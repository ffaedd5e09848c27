/**
 * `main`: export the space, list everything staged under `src`, and run
 * every listed file through the transform-or-fallback step into `docs`.
 * The extracted archive is a parameter: the staged tree `listFiles` walks,
 * and the file system holding the staged files' contents.
 */
module Pipeline {
  import opened Wrappers
  import opened Poll
  import opened Walk
  import opened Paths
  import opened Transform

  /** Every path `listFiles("src")` yields is a staged file. */
  lemma ListedAreStaged(staged: seq<Node>)
    ensures forall p :: p in ListFiles([Staging], staged) ==> Staged(p)
  {
    forall p | p in ListFiles([Staging], staged)
      ensures Staged(p)
    {
      assert p[..1] == [Staging];
      assert p[0] == p[..1][0];
    }
  }

  /** `listFiles("src")` yields exactly the staged files. */
  lemma ListingIsStaged(staged: seq<Node>, p: Path)
    ensures p in ListFiles([Staging], staged) <==> |p| > 1 && p[0] == Staging && IsFile(staged, p[1..])
  {
    ListFilesExact([Staging], staged, p);
    if |p| >= 1 {
      assert p[0] == Staging <==> p[..1] == [Staging];
    }
  }

  /** Every listed file has contents when every staged file does. */
  lemma ListedArePresent(staged: seq<Node>, src: map<Path, Bytes>)
    requires forall rel :: IsFile(staged, rel) ==> [Staging] + rel in src
    ensures AllStaged(src, ListFiles([Staging], staged))
  {
    ListedAreStaged(staged);
    forall p | p in ListFiles([Staging], staged)
      ensures p in src
    {
      ListingIsStaged(staged, p);
      assert [Staging] + p[1..] == p;
    }
  }

  /** No staged file is lost: each one's destination holds that file's result. */
  lemma StagedFilesMirrored(staged: seq<Node>, src: map<Path, Bytes>, minify: Minifier, out: map<Path, Bytes>)
    requires AllStaged(src, ListFiles([Staging], staged))
    requires out == Expected(src, ListFiles([Staging], staged), minify)
    ensures forall rel :: IsFile(staged, rel) ==>
      Mirror([Staging] + rel) in out && out[Mirror([Staging] + rel)] == ResultOf(src, [Staging] + rel, minify)
  {
    var files := ListFiles([Staging], staged);
    ExpectedContents(src, files, minify);
    forall rel | IsFile(staged, rel)
      ensures Mirror([Staging] + rel) in out
      ensures out[Mirror([Staging] + rel)] == ResultOf(src, [Staging] + rel, minify)
    {
      var p := [Staging] + rel;
      assert p[1..] == rel;
      ReachesNonEmpty(staged, rel);
      ListingIsStaged(staged, p);
    }
  }

  /** The whole of `main` up to the redirects overlay. */
  method Run(exportId: string, responses: seq<Status>, staged: seq<Node>, fs: Fs, minify: Minifier)
    returns (req: Download, checks: nat, files: seq<Path>, out: Fs, reports: seq<Report>)
    requires Terminates(responses)
    requires forall rel :: IsFile(staged, rel) ==> [Staging] + rel in fs.files
    // the export is downloaded under the name of the first ready response
    ensures req.exportId == exportId
    ensures Poll.Poll(responses) == Some((req.filename, checks))
    // each staged file is processed once, in listing order
    ensures WellFormed(staged) ==> Distinct(files)
    ensures reports == Reports(fs.files, files, minify)
    // no staged file is lost from the output tree
    ensures out.files == Expected(fs.files, files, minify)
    ensures forall rel :: IsFile(staged, rel) ==>
      Mirror([Staging] + rel) in out.files &&
      out.files[Mirror([Staging] + rel)] == ResultOf(fs.files, [Staging] + rel, minify)
    ensures out.dirs == fs.dirs + MadeDirs(files)
    // the files processed are those `listFiles("src")` yields
    ensures files == ListFiles([Staging], staged)
  {
    req, checks := ExportPages(exportId, responses);
    files := ListFiles([Staging], staged);
    ListedArePresent(staged, fs.files);
    out, reports := ProcessAll(fs, files, minify);
    StagedFilesMirrored(staged, fs.files, minify, out.files);
    if WellFormed(staged) {
      ListFilesDistinct([Staging], staged);
    }
  }

  /** A file reached below the staging root has at least one segment. */
  lemma ReachesNonEmpty(entries: seq<Node>, rel: Path)
    requires IsFile(entries, rel)
    ensures |rel| >= 1
  {
    var i :| 0 <= i < |entries| && Reaches(entries[i], rel);
    ReachesStartsWithName(entries[i], rel);
  }
}
