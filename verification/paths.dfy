/**
 * How `main`, `compress` and `copy` read a listed file's path: its kind, by
 * suffix of the whole path string, and its place in the output tree, by
 * dropping the first segment (the staging root) and putting the output root
 * in front.
 */
module Paths {
  import opened Walk

  /** The root `listFiles` is started from. */
  const Staging: string := "src"
  /** The output root `target`. */
  const Target: string := "docs"

  /** The dispatch of `main`: a compressor `type`, or plain copy. */
  datatype Kind = Script | Style | Other

  /** JavaScript `String.prototype.endsWith`, an exact, case-sensitive test. */
  predicate EndsWith(s: string, suffix: string) {
    |suffix| <= |s| && s[|s| - |suffix|..] == suffix
  }

  /** The path string as `path.join` produces it (no normalisation). */
  function Join(p: Path): string
    decreases |p|
  {
    if |p| == 0 then ""
    else if |p| == 1 then p[0]
    else Join(p[..|p| - 1]) + "/" + p[|p| - 1]
  }

  /** `.js` is tested first, then `.css`; anything else is copied verbatim. */
  function Classify(file: string): (k: Kind)
    ensures k == Script <==> EndsWith(file, ".js")
    ensures k == Style <==> !EndsWith(file, ".js") && EndsWith(file, ".css")
    ensures k == Other <==> !EndsWith(file, ".js") && !EndsWith(file, ".css")
  {
    if EndsWith(file, ".js") then Script
    else if EndsWith(file, ".css") then Style
    else Other
  }

  /** A path's last segment, its file name. */
  function Name(file: Path): string {
    if |file| == 0 then "" else file[|file| - 1]
  }

  /** The kind of a listed file, read off its file name. */
  function KindOf(file: Path): Kind {
    Classify(Name(file))
  }

  /** No name ends in both `.js` and `.css`. */
  lemma SuffixesExclusive(file: string)
    ensures EndsWith(file, ".js") ==> !EndsWith(file, ".css")
  {
    if EndsWith(file, ".js") && |file| >= 4 {
      var n := |file|;
      assert file[n - 3..][1] == file[n - 2];
      assert file[n - 2] == 'j';
      assert file[n - 4..][2] == file[n - 2];
      assert file[n - 4..][2] != ".css"[2];
    }
  }

  /** So the order of the two tests in `main` is immaterial. */
  lemma ClassifyOrderIrrelevant(file: string)
    ensures Classify(file) == (if EndsWith(file, ".css") then Style
                               else if EndsWith(file, ".js") then Script
                               else Other)
  {
    SuffixesExclusive(file);
  }

  /** The test is exact: case differs, or a longer extension, and the file is copied. */
  lemma ClassifyCaseSensitive()
    ensures Classify("a.CSS") == Other
    ensures Classify("a/b/c.CSS") == Other
    ensures Classify("x.JS") == Other
    ensures Classify("x.json") == Other
    ensures Classify("main.js") == Script
    ensures Classify("style.css") == Style
  {
    assert !EndsWith("a.CSS", ".css") && !EndsWith("a.CSS", ".js");
    assert !EndsWith("a/b/c.CSS", ".css") && !EndsWith("a/b/c.CSS", ".js");
    assert !EndsWith("x.JS", ".css") && !EndsWith("x.JS", ".js");
    assert !EndsWith("x.json", ".css") && !EndsWith("x.json", ".js");
  }

  /** A suffix free of separators is a suffix of the joined path iff of its last segment. */
  lemma EndsWithAfterSeparator(front: string, last: string, suffix: string)
    requires '/' !in suffix
    ensures EndsWith(front + "/" + last, suffix) <==> EndsWith(last, suffix)
  {
    var s := front + "/" + last;
    if |suffix| <= |last| {
      assert s[|s| - |suffix|..] == last[|last| - |suffix|..];
    } else if |suffix| <= |s| {
      var k := |suffix| - |last| - 1;
      assert s[|s| - |suffix|..][k] == s[|front|] == '/';
      assert suffix[k] != '/';
    }
  }

  /**
   * `main` tests the suffix of the whole joined path; that is the same as
   * testing the file name alone.
   */
  lemma ClassifyByFileName(file: Path)
    ensures Classify(Join(file)) == KindOf(file)
  {
    if |file| >= 2 {
      EndsWithAfterSeparator(Join(file[..|file| - 1]), file[|file| - 1], ".js");
      EndsWithAfterSeparator(Join(file[..|file| - 1]), file[|file| - 1], ".css");
    }
  }

  /** `file.split("/").slice(1)`: every segment after the first. */
  function Tail(file: Path): Path {
    if |file| == 0 then [] else file[1..]
  }

  /** `file.split("/").slice(1, -1)`: the segments strictly between first and last. */
  function Middle(file: Path): Path {
    if |file| <= 1 then [] else file[1..|file| - 1]
  }

  /** The destination `[target].concat(file.split("/").slice(1))`. */
  function Mirror(file: Path): (dest: Path)
    ensures |dest| >= 1 && dest[0] == Target
    ensures |file| >= 1 ==> |dest| == |file|
  {
    [Target] + Tail(file)
  }

  /** The directory `compress` and `copy` create: `[target].concat(file.split("/").slice(1, -1))`. */
  function DirOf(file: Path): (dir: Path)
    ensures |dir| >= 1 && dir[0] == Target
    ensures |file| >= 2 ==> |dir| == |file| - 1
  {
    [Target] + Middle(file)
  }

  /** A file listed under the staging root. */
  predicate Staged(file: Path) {
    |file| >= 1 && file[0] == Staging
  }

  /** The staged file an output path was mirrored from. */
  function Unmirror(dest: Path): (file: Path)
    requires |dest| >= 1
    ensures Staged(file) && |file| == |dest|
  {
    [Staging] + dest[1..]
  }

  /** Mirroring keeps every segment after the first; the directory keeps the middle ones. */
  lemma MirrorKeepsSegments(file: Path, i: nat)
    requires 1 <= i < |file|
    ensures Mirror(file)[i] == file[i]
    ensures i < |file| - 1 ==> DirOf(file)[i] == file[i]
  {
  }

  /** The directory created for a file holds exactly that file's destination. */
  lemma DirOfThenName(file: Path)
    requires |file| >= 2
    ensures DirOf(file) + [file[|file| - 1]] == Mirror(file)
  {
    assert file[1..] == file[1..|file| - 1] + [file[|file| - 1]];
  }

  /** Unmirroring inverts mirroring on staged files. */
  lemma UnmirrorMirror(file: Path)
    requires Staged(file)
    ensures Unmirror(Mirror(file)) == file
  {
  }

  /** Mirroring inverts unmirroring on output paths. */
  lemma MirrorUnmirror(dest: Path)
    requires |dest| >= 1 && dest[0] == Target
    ensures Mirror(Unmirror(dest)) == dest
  {
  }

  /** Distinct staged files never share a destination. */
  lemma MirrorInjective(a: Path, b: Path)
    requires Staged(a) && Staged(b)
    ensures Mirror(a) == Mirror(b) <==> a == b
  {
    if Mirror(a) == Mirror(b) {
      UnmirrorMirror(a);
      UnmirrorMirror(b);
    }
  }

  /** No destination is itself a staged file, so writing outputs never touches inputs. */
  lemma MirrorNotStaged(file: Path)
    ensures !Staged(Mirror(file))
  {
  }
}
