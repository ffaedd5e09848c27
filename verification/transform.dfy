/**
 * The transform-or-fallback step (`compress`, `copy`) and the per-file loop
 * of `main`. The file system is a map from paths to contents plus the set
 * of directories made; the minifier (yuicompressor) is an oracle from a
 * file's contents and compressor `type` to an error or output data.
 */
module Transform {
  import opened Walk
  import opened Paths
  import opened Tables

  newtype byte = x: int | 0 <= x < 256
  type Bytes = seq<byte>

  datatype Fs = Fs(files: map<Path, Bytes>, dirs: set<Path>)

  /** The compressor's `type` option. */
  datatype Lang = Js | Css

  /** What the compressor's callback receives: an `err`, or `data`. */
  datatype Compressed = Err | Ok(data: Bytes)

  type Minifier = (Bytes, Lang) -> Compressed

  /** How a file reached the output tree. */
  datatype Outcome = Minified | Copied

  /** Which logger `main` calls for the file: `logSuccess` or `logError`. */
  datatype Signal = Success | Failure

  datatype Report = Report(file: Path, outcome: Outcome, signal: Signal)

  predicate IsPrefix(a: Path, b: Path) {
    |a| <= |b| && b[..|a|] == a
  }

  /** `mkdirSync(dir, { recursive: true })`: makes `dir` and all its ancestors. */
  function Mkdir(fs: Fs, dir: Path): (r: Fs)
    ensures r.files == fs.files
    ensures fs.dirs <= r.dirs
    ensures |dir| >= 1 ==> dir in r.dirs
    ensures forall k :: 1 <= k <= |dir| ==> dir[..k] in r.dirs
    ensures forall d :: d in r.dirs && d !in fs.dirs ==> 1 <= |d| && IsPrefix(d, dir)
  {
    var r := fs.(dirs := fs.dirs + Ancestors(dir));
    assert |dir| >= 1 ==> dir[..|dir|] == dir;
    r
  }

  /** `dir` and every ancestor of it below the root. */
  function Ancestors(dir: Path): set<Path> {
    set k | 1 <= k <= |dir| :: dir[..k]
  }

  /** A directory that already exists is not an error: making it again changes nothing. */
  lemma MkdirIdempotent(fs: Fs, dir: Path)
    ensures Mkdir(Mkdir(fs, dir), dir) == Mkdir(fs, dir)
  {
  }

  /** `compress` resolves only when there is no `err` and `data` is non-empty. */
  predicate Succeeded(c: Compressed) {
    c.Ok? && |c.data| > 0
  }

  /** The file system after `compress`, and whether its promise resolved. */
  datatype Attempt = Attempt(fs: Fs, ok: bool)

  /**
   * `compress`: make the destination's directory, run the minifier, and
   * write its output only on success. The directory is made before the
   * minifier runs, so it exists even when compression fails.
   */
  function Compress(fs: Fs, file: Path, lang: Lang, minify: Minifier): (r: Attempt)
    requires file in fs.files
    ensures r.fs.dirs == Mkdir(fs, DirOf(file)).dirs
    ensures r.ok <==> Succeeded(minify(fs.files[file], lang))
    ensures r.ok ==> r.fs.files == fs.files[Mirror(file) := minify(fs.files[file], lang).data]
    ensures !r.ok ==> r.fs.files == fs.files
  {
    var made := Mkdir(fs, DirOf(file));
    match minify(fs.files[file], lang)
    case Err => Attempt(made, false)
    case Ok(data) =>
      if |data| > 0 then Attempt(made.(files := made.files[Mirror(file) := data]), true)
      else Attempt(made, false)
  }

  /** `copy`: make the destination's directory and copy the bytes unchanged. */
  function Copy(fs: Fs, file: Path): (r: Fs)
    requires file in fs.files
    ensures r.files.Keys == fs.files.Keys + {Mirror(file)}
    ensures r.files[Mirror(file)] == fs.files[file]
    ensures forall k :: k in fs.files && k != Mirror(file) ==> r.files[k] == fs.files[k]
    ensures r.dirs == Mkdir(fs, DirOf(file)).dirs
  {
    var made := Mkdir(fs, DirOf(file));
    made.(files := made.files[Mirror(file) := fs.files[file]])
  }

  /** The compressor `type` `main` passes for a script or a stylesheet. */
  function LangOf(k: Kind): Lang
    requires k != Other
  {
    if k == Script then Js else Css
  }

  /** What a file's destination holds after processing, and how it got there. */
  datatype Written = Written(data: Bytes, outcome: Outcome)

  /**
   * Reference for one file: others are copied; scripts and stylesheets are
   * minified when the minifier succeeds and copied verbatim otherwise.
   */
  function FileResult(bytes: Bytes, kind: Kind, minify: Minifier): Written {
    if kind == Other then Written(bytes, Copied)
    else
      var c := minify(bytes, LangOf(kind));
      if Succeeded(c) then Written(c.data, Minified) else Written(bytes, Copied)
  }

  /** `logError` only for a script or stylesheet that fell back to a copy. */
  function SignalOf(kind: Kind, outcome: Outcome): Signal {
    if kind != Other && outcome == Copied then Failure else Success
  }

  /** A listed file's contents; the loop only ever reads files that are present. */
  function Content(src: map<Path, Bytes>, file: Path): Bytes {
    if file in src then src[file] else []
  }

  /** The report `main`'s loop produces for a file. */
  function ReportFor(src: map<Path, Bytes>, file: Path, minify: Minifier): Report {
    var w := FileResult(Content(src, file), KindOf(file), minify);
    Report(file, w.outcome, SignalOf(KindOf(file), w.outcome))
  }

  /** What `main` guarantees for one file, whichever way the minifier answers. */
  lemma FileResultGuarantees(bytes: Bytes, kind: Kind, minify: Minifier)
    ensures var w := FileResult(bytes, kind, minify);
      // fallback guarantee: a copied file holds exactly the source bytes
      && (w.outcome == Copied ==> w.data == bytes)
      && (kind == Other ==> w.outcome == Copied)
      && (w.outcome == Minified <==> kind != Other && Succeeded(minify(bytes, LangOf(kind))))
      && (w.outcome == Minified ==> w.data == minify(bytes, LangOf(kind)).data && |w.data| > 0)
      && (SignalOf(kind, w.outcome) == Failure <==> kind != Other && !Succeeded(minify(bytes, LangOf(kind))))
  {
  }

  /**
   * One iteration of `main`'s loop: dispatch on kind, compress or copy,
   * fall back to a copy when compression fails. Only the file's own
   * destination is written, and its directory is made on every path.
   */
  method Process(fs: Fs, file: Path, minify: Minifier) returns (out: Fs, report: Report)
    requires file in fs.files
    ensures out.files == fs.files[Mirror(file) := FileResult(fs.files[file], KindOf(file), minify).data]
    ensures out.dirs == fs.dirs + Ancestors(DirOf(file))
    ensures report == ReportFor(fs.files, file, minify)
  {
    var kind := KindOf(file);
    if kind == Other {
      out := Copy(fs, file);
      report := Report(file, Copied, Success);
    } else {
      var a := Compress(fs, file, LangOf(kind), minify);
      if a.ok {
        out := a.fs;
        report := Report(file, Minified, Success);
      } else {
        out := Copy(a.fs, file);
        report := Report(file, Copied, Failure);
      }
    }
  }

  /** Every listed file is under the staging root and present in the file system. */
  predicate AllStaged(src: map<Path, Bytes>, files: seq<Path>) {
    forall f :: f in files ==> Staged(f) && f in src
  }

  /** The destinations of the listed files. */
  function Dests(files: seq<Path>): set<Path> {
    Image(files, Mirror)
  }

  /** What a staged file's destination holds after processing. */
  function ResultOf(src: map<Path, Bytes>, file: Path, minify: Minifier): Bytes {
    FileResult(Content(src, file), KindOf(file), minify).data
  }

  lemma MirrorInjectiveOn(files: seq<Path>)
    requires forall f :: f in files ==> Staged(f)
    ensures InjectiveOn(files, Mirror)
  {
    forall f, g | f in files && g in files && Mirror(f) == Mirror(g)
      ensures f == g
    {
      MirrorInjective(f, g);
    }
  }

  /** Each destination mapped to its own staged file's result. */
  function Outputs(src: map<Path, Bytes>, files: seq<Path>, minify: Minifier): map<Path, Bytes> {
    Tabulate(files, Mirror, f => ResultOf(src, f, minify))
  }

  /**
   * Reference for the whole loop: every destination holds its own staged
   * file's result, and every other path keeps its contents.
   */
  function Expected(src: map<Path, Bytes>, files: seq<Path>, minify: Minifier): map<Path, Bytes> {
    src + Outputs(src, files, minify)
  }

  /** What the reference says, path by path; the order of the files does not matter. */
  lemma ExpectedContents(src: map<Path, Bytes>, files: seq<Path>, minify: Minifier)
    requires AllStaged(src, files)
    ensures Expected(src, files, minify).Keys == src.Keys + Dests(files)
    ensures forall f :: f in files ==>
      Mirror(f) in Expected(src, files, minify) && Expected(src, files, minify)[Mirror(f)] == ResultOf(src, f, minify)
    ensures forall f :: f in files ==> Expected(src, files, minify)[f] == src[f]
    ensures forall k :: k in src && k !in Dests(files) ==> Expected(src, files, minify)[k] == src[k]
  {
    MirrorInjectiveOn(files);
    TabulateContents(files, Mirror, f => ResultOf(src, f, minify));
    forall f | f in files
      ensures f !in Dests(files)
    {
      ImageMembers(files, Mirror, f);
    }
  }

  /** If the minifier never succeeds, every destination is a verbatim copy of its staged file. */
  lemma FallbackEverywhere(src: map<Path, Bytes>, files: seq<Path>, minify: Minifier)
    requires AllStaged(src, files)
    requires forall b, lang :: !Succeeded(minify(b, lang))
    ensures forall f :: f in files ==>
      Mirror(f) in Expected(src, files, minify) && Expected(src, files, minify)[Mirror(f)] == src[f]
  {
    ExpectedContents(src, files, minify);
    forall f | f in files
      ensures ResultOf(src, f, minify) == src[f]
    {
      FileResultGuarantees(src[f], KindOf(f), minify);
    }
  }

  /** Running the loop again over its own output changes nothing. */
  lemma ExpectedIdempotent(src: map<Path, Bytes>, files: seq<Path>, minify: Minifier)
    requires AllStaged(src, files)
    ensures AllStaged(Expected(src, files, minify), files)
    ensures Expected(Expected(src, files, minify), files, minify) == Expected(src, files, minify)
  {
    var once := Expected(src, files, minify);
    ExpectedContents(src, files, minify);
    TabulateCongruent(files, Mirror, f => ResultOf(once, f, minify), f => ResultOf(src, f, minify));
    assert (src + Outputs(src, files, minify)) + Outputs(src, files, minify) == once;
  }

  /** Outputs are never written over a staged file. */
  lemma {:induction false} OutputsAvoidStaged(src: map<Path, Bytes>, files: seq<Path>, minify: Minifier, f: Path)
    requires Staged(f)
    decreases |files|
    ensures f !in Outputs(src, files, minify)
  {
    if |files| > 0 {
      OutputsAvoidStaged(src, files[..|files| - 1], minify, f);
      MirrorNotStaged(files[|files| - 1]);
    }
  }

  /** One more iteration of `main`'s loop keeps its file system equal to the reference. */
  lemma ExpectedAdvance(src: map<Path, Bytes>, files: seq<Path>, i: nat, cur: map<Path, Bytes>, minify: Minifier)
    requires i < |files| && AllStaged(src, files)
    requires cur == Expected(src, files[..i], minify)
    ensures files[i] in cur && cur[files[i]] == src[files[i]]
    ensures cur[Mirror(files[i]) := FileResult(cur[files[i]], KindOf(files[i]), minify).data]
         == Expected(src, files[..i + 1], minify)
  {
    var f := files[i];
    assert files[..i + 1] == files[..i] + [f];
    OutputsAvoidStaged(src, files[..i], minify, f);
    TabulateSnoc(files[..i], f, Mirror, g => ResultOf(src, g, minify));
    var before := Outputs(src, files[..i], minify);
    assert (src + before)[Mirror(f) := ResultOf(src, f, minify)] == src + before[Mirror(f) := ResultOf(src, f, minify)];
  }

  /** Reference for the reports of the loop: one per file, in listing order. */
  function Reports(src: map<Path, Bytes>, files: seq<Path>, minify: Minifier): seq<Report> {
    Apply(files, f => ReportFor(src, f, minify))
  }

  /** The reports, one per listed file, in listing order. */
  lemma ReportsIndex(src: map<Path, Bytes>, files: seq<Path>, minify: Minifier)
    ensures |Reports(src, files, minify)| == |files|
    ensures forall i :: 0 <= i < |files| ==> Reports(src, files, minify)[i] == ReportFor(src, files[i], minify)
  {
    ApplyIndex(files, f => ReportFor(src, f, minify));
  }

  /** Reference for the directories the loop makes. */
  function MadeDirs(files: seq<Path>): set<Path>
    decreases |files|
  {
    if files == [] then {} else MadeDirs(files[..|files| - 1]) + Ancestors(DirOf(files[|files| - 1]))
  }

  /** The directories recursive mkdir makes are exactly the non-empty prefixes of the directory. */
  lemma AncestorsMembers(dir: Path, d: Path)
    ensures d in Ancestors(dir) <==> 1 <= |d| && IsPrefix(d, dir)
  {
    if 1 <= |d| && IsPrefix(d, dir) {
      assert dir[..|d|] == d;
    }
  }

  /** One more file adds its destination's directory and ancestors to those made. */
  lemma MadeDirsSnoc(dirs: set<Path>, files: seq<Path>, i: nat)
    requires i < |files|
    ensures dirs + MadeDirs(files[..i]) + Ancestors(DirOf(files[i])) == dirs + MadeDirs(files[..i + 1])
  {
    assert files[..i + 1][..i] == files[..i];
    assert dirs + MadeDirs(files[..i]) + Ancestors(DirOf(files[i])) == dirs + (MadeDirs(files[..i]) + Ancestors(DirOf(files[i])));
  }

  /** Every directory the loop makes is an ancestor of some destination's directory. */
  lemma {:induction false} MadeDirsSound(files: seq<Path>, d: Path)
    requires d in MadeDirs(files)
    decreases |files|
    ensures exists j :: 0 <= j < |files| && IsPrefix(d, DirOf(files[j]))
  {
    var n := |files| - 1;
    var init := files[..n];
    AncestorsMembers(DirOf(files[n]), d);
    if d !in Ancestors(DirOf(files[n])) {
      MadeDirsSound(init, d);
      var j :| 0 <= j < n && IsPrefix(d, DirOf(init[j]));
      assert init[j] == files[j];
    }
  }

  /** Every destination's directory, and each of its ancestors, is made. */
  lemma {:induction false} MadeDirsComplete(files: seq<Path>, j: nat, d: Path)
    requires j < |files| && 1 <= |d| && IsPrefix(d, DirOf(files[j]))
    decreases |files|
    ensures d in MadeDirs(files)
  {
    var n := |files| - 1;
    if j < n {
      var init := files[..n];
      assert init[j] == files[j];
      MadeDirsComplete(init, j, d);
    } else {
      AncestorsMembers(DirOf(files[n]), d);
    }
  }

  /** What one more iteration of the loop leaves behind matches the references one file further. */
  lemma LoopStep(fs: Fs, files: seq<Path>, i: nat, cur: Fs, next: Fs, reports: seq<Report>, report: Report, minify: Minifier)
    requires i < |files| && AllStaged(fs.files, files)
    requires cur.files == Expected(fs.files, files[..i], minify)
    requires cur.dirs == fs.dirs + MadeDirs(files[..i])
    requires reports == Reports(fs.files, files[..i], minify)
    requires files[i] in cur.files
    requires next.files == cur.files[Mirror(files[i]) := FileResult(cur.files[files[i]], KindOf(files[i]), minify).data]
    requires next.dirs == cur.dirs + Ancestors(DirOf(files[i]))
    requires report == ReportFor(cur.files, files[i], minify)
    ensures next.files == Expected(fs.files, files[..i + 1], minify)
    ensures next.dirs == fs.dirs + MadeDirs(files[..i + 1])
    ensures reports + [report] == Reports(fs.files, files[..i + 1], minify)
  {
    ExpectedAdvance(fs.files, files, i, cur.files, minify);
    MadeDirsSnoc(fs.dirs, files, i);
    assert files[..i + 1][..i] == files[..i];
  }

  /** A staged file is still present, with its contents, after any number of iterations. */
  lemma StagedKept(fs: Fs, files: seq<Path>, i: nat, cur: Fs, minify: Minifier)
    requires i < |files| && AllStaged(fs.files, files)
    requires cur.files == Expected(fs.files, files[..i], minify)
    ensures files[i] in cur.files && cur.files[files[i]] == fs.files[files[i]]
  {
    ExpectedAdvance(fs.files, files, i, cur.files, minify);
  }

  /** The loop of `main` over the listed files, one at a time in listing order. */
  method ProcessAll(fs: Fs, files: seq<Path>, minify: Minifier) returns (out: Fs, reports: seq<Report>)
    requires AllStaged(fs.files, files)
    // one report per listed file, in listing order (see ReportsIndex)
    ensures reports == Reports(fs.files, files, minify)
    // every destination holds its file's result, and nothing else changes (see ExpectedContents)
    ensures out.files == Expected(fs.files, files, minify)
    // the directories of all destinations, and nothing else, are added (see MadeDirsSound, MadeDirsComplete)
    ensures out.dirs == fs.dirs + MadeDirs(files)
  {
    out := fs;
    reports := [];
    var i := 0;
    assert files[..0] == [];
    while i < |files|
      invariant 0 <= i <= |files|
      invariant out.files == Expected(fs.files, files[..i], minify)
      invariant reports == Reports(fs.files, files[..i], minify)
      invariant out.dirs == fs.dirs + MadeDirs(files[..i])
    {
      StagedKept(fs, files, i, out, minify);
      var next, report := Process(out, files[i], minify);
      LoopStep(fs, files, i, out, next, reports, report, minify);
      out, reports, i := next, reports + [report], i + 1;
    }
    assert files[..i] == files;
  }
}
