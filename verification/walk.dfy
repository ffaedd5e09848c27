/**
 * `listFiles`: recursive directory listing flattened into one sequence of
 * paths. `Promise.all` keeps the order of `readdir`, so the result is a
 * depth-first flatten in listing order. A path is a sequence of segments;
 * `path.join` is segment concatenation here.
 */
module Walk {

  type Path = seq<string>

  /** A directory entry as `readdir(.., { withFileTypes: true })` sees it. */
  datatype Node = Entry(name: string) | Dir(name: string, children: seq<Node>)

  /** The listing of a directory at `dir` whose entries are `entries`. */
  function ListFiles(dir: Path, entries: seq<Node>): (r: seq<Path>)
    decreases entries
    ensures forall p :: p in r ==> |p| > |dir| && p[..|dir|] == dir
  {
    if |entries| == 0 then []
    else ListNode(dir, entries[0]) + ListFiles(dir, entries[1..])
  }

  /** One entry's part of the listing: itself, or its directory's listing. */
  function ListNode(dir: Path, n: Node): (r: seq<Path>)
    decreases n
    ensures forall p :: p in r ==> |p| > |dir| && p[..|dir|] == dir
  {
    match n
    case Entry(name) => [dir + [name]]
    case Dir(name, children) =>
      ListFiles(dir + [name], children)
  }

  /** `rel` names a non-directory entry reachable from node `n` (its own name first). */
  predicate Reaches(n: Node, rel: Path)
    decreases n
  {
    match n
    case Entry(name) => rel == [name]
    case Dir(name, children) =>
      && |rel| >= 2
      && rel[0] == name
      && exists i :: 0 <= i < |children| && Reaches(children[i], rel[1..])
  }

  /** `rel` names a directory reachable from node `n`, `n` itself included. */
  predicate ReachesDir(n: Node, rel: Path)
    decreases n
  {
    match n
    case Entry(_) => false
    case Dir(name, children) =>
      || rel == [name]
      || (&& |rel| >= 2
          && rel[0] == name
          && exists i :: 0 <= i < |children| && ReachesDir(children[i], rel[1..]))
  }

  /** `rel` names a non-directory entry below a directory with these entries. */
  predicate IsFile(entries: seq<Node>, rel: Path) {
    exists i :: 0 <= i < |entries| && Reaches(entries[i], rel)
  }

  /** `rel` names a directory below a directory with these entries. */
  predicate IsDir(entries: seq<Node>, rel: Path) {
    exists i :: 0 <= i < |entries| && ReachesDir(entries[i], rel)
  }

  /** Names within one directory are distinct, at every level (a real file system). */
  predicate WellFormed(entries: seq<Node>)
    decreases entries
  {
    && (forall i, j :: 0 <= i < j < |entries| ==> entries[i].name != entries[j].name)
    && (forall i :: 0 <= i < |entries| ==> entries[i].Dir? ==> WellFormed(entries[i].children))
  }

  predicate Distinct<T(==)>(s: seq<T>) {
    forall i, j :: 0 <= i < j < |s| ==> s[i] != s[j]
  }

  lemma ReachesStartsWithName(n: Node, rel: Path)
    requires Reaches(n, rel) || ReachesDir(n, rel)
    ensures |rel| >= 1 && rel[0] == n.name
  {
  }

  /** A listing is the listings of consecutive parts, in order. */
  lemma {:induction false} ListFilesConcat(dir: Path, a: seq<Node>, b: seq<Node>)
    ensures ListFiles(dir, a + b) == ListFiles(dir, a) + ListFiles(dir, b)
  {
    if |a| == 0 {
      assert a + b == b;
    } else {
      assert (a + b)[0] == a[0];
      assert (a + b)[1..] == a[1..] + b;
      ListFilesConcat(dir, a[1..], b);
    }
  }

  /**
   * The listing holds exactly the reachable non-directory entries, each
   * prefixed by the directory it was started from.
   */
  lemma {:induction false} ListFilesExact(dir: Path, entries: seq<Node>, p: Path)
    decreases entries
    ensures p in ListFiles(dir, entries) <==>
      |p| > |dir| && p[..|dir|] == dir && IsFile(entries, p[|dir|..])
  {
    if |entries| > 0 {
      ListNodeExact(dir, entries[0], p);
      ListFilesExact(dir, entries[1..], p);
      if |p| > |dir| && p[..|dir|] == dir {
        var rel := p[|dir|..];
        if IsFile(entries, rel) {
          var i :| 0 <= i < |entries| && Reaches(entries[i], rel);
          if i > 0 {
            assert entries[1..][i - 1] == entries[i];
          }
        }
        if IsFile(entries[1..], rel) {
          var i :| 0 <= i < |entries[1..]| && Reaches(entries[1..][i], rel);
          assert entries[i + 1] == entries[1..][i];
        }
      }
    }
  }

  lemma {:induction false} ListNodeExact(dir: Path, n: Node, p: Path)
    decreases n
    ensures p in ListNode(dir, n) <==>
      |p| > |dir| && p[..|dir|] == dir && Reaches(n, p[|dir|..])
  {
    match n
    case Entry(name) =>
      if |p| > |dir| && p[..|dir|] == dir && p[|dir|..] == [name] {
        assert p == p[..|dir|] + p[|dir|..];
      }
    case Dir(name, children) =>
      var d := dir + [name];
      ListFilesExact(d, children, p);
      if |p| > |dir| && p[..|dir|] == dir {
        var rel := p[|dir|..];
        if |p| > |d| && p[..|d|] == d {
          assert rel[0] == p[|dir|] == name;
          assert rel[1..] == p[|d|..];
        }
        if |rel| >= 2 && rel[0] == name {
          assert p[..|d|] == p[..|dir|] + [p[|dir|]];
          assert rel[1..] == p[|d|..];
        }
      } else if p in ListNode(dir, n) {
        assert false;
      }
  }

  /** Disjoint duplicate-free sequences concatenate to a duplicate-free one. */
  lemma DistinctConcat<T>(a: seq<T>, b: seq<T>)
    requires Distinct(a) && Distinct(b)
    requires forall x :: x in a ==> x !in b
    ensures Distinct(a + b)
  {
    forall i, j | 0 <= i < j < |a + b|
      ensures (a + b)[i] != (a + b)[j]
    {
      if i < |a| && j >= |a| {
        assert (a + b)[i] in a && (a + b)[j] == b[j - |a|];
      }
    }
  }

  /** In a well-formed tree every reachable file is listed exactly once. */
  lemma {:induction false} ListFilesDistinct(dir: Path, entries: seq<Node>)
    requires WellFormed(entries)
    decreases entries
    ensures Distinct(ListFiles(dir, entries))
  {
    if |entries| > 0 {
      var first := ListNode(dir, entries[0]);
      var rest := ListFiles(dir, entries[1..]);
      assert WellFormed(entries[1..]) by {
        assert forall i :: 0 <= i < |entries[1..]| ==> entries[1..][i] == entries[i + 1];
      }
      if entries[0].Dir? {
        ListFilesDistinct(dir + [entries[0].name], entries[0].children);
      }
      ListFilesDistinct(dir, entries[1..]);
      forall q | q in rest
        ensures q[|dir|] != entries[0].name
      {
        ListFilesExact(dir, entries[1..], q);
        var i :| 0 <= i < |entries[1..]| && Reaches(entries[1..][i], q[|dir|..]);
        ReachesStartsWithName(entries[1..][i], q[|dir|..]);
        assert entries[1..][i] == entries[i + 1];
      }
      forall p | p in first
        ensures p[|dir|] == entries[0].name
      {
        ListNodeExact(dir, entries[0], p);
        ReachesStartsWithName(entries[0], p[|dir|..]);
      }
      DistinctConcat(first, rest);
    }
  }

  /** In a well-formed tree no path names both a file and a directory. */
  lemma {:induction false} NodeFileNotDir(n: Node, rel: Path)
    requires n.Dir? ==> WellFormed(n.children)
    decreases n
    ensures !(Reaches(n, rel) && ReachesDir(n, rel))
  {
    match n
    case Entry(_) =>
    case Dir(name, children) =>
      if Reaches(n, rel) && ReachesDir(n, rel) {
        var i :| 0 <= i < |children| && Reaches(children[i], rel[1..]);
        var j :| 0 <= j < |children| && ReachesDir(children[j], rel[1..]);
        ReachesStartsWithName(children[i], rel[1..]);
        ReachesStartsWithName(children[j], rel[1..]);
        assert i == j;
        NodeFileNotDir(children[i], rel[1..]);
      }
  }

  /** No path names both a file and a directory, so no directory is ever listed (see ListFilesExact). */
  lemma FilesAreNotDirs(entries: seq<Node>, rel: Path)
    requires WellFormed(entries)
    ensures !(IsFile(entries, rel) && IsDir(entries, rel))
  {
    if IsFile(entries, rel) && IsDir(entries, rel) {
      var i :| 0 <= i < |entries| && Reaches(entries[i], rel);
      var j :| 0 <= j < |entries| && ReachesDir(entries[j], rel);
      ReachesStartsWithName(entries[i], rel);
      ReachesStartsWithName(entries[j], rel);
      assert i == j;
      NodeFileNotDir(entries[i], rel);
    }
  }
}
