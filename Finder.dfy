/** PersistenceXmlFinder: which directories the walk enters and which files it
    collects, and what the whole walk collects. */
module Finder {
  import opened FileTree

  datatype FileVisitResult = Continue | SkipSubtree

  /** The names of directories below the module level that the walk enters. */
  const DirectoriesToExplore: seq<string> := ["src", "main", "test", "resources", "META-INF"]

  /** The only file name that is collected. */
  const TargetFileName: string := "persistence.xml"

  /** preVisitDirectory. Java's `dir.getParent()` is null only for "/", and
      "/" reaches the second test only when it is not the starting directory,
      which the walk never does; hence the precondition. */
  function PreVisitDirectory(startingDir: Path, dir: Path): FileVisitResult
    requires dir == startingDir || |dir| > 0
  {
    if dir == startingDir then Continue
    else if Parent(dir) == startingDir then Continue
    else if FileName(dir) in DirectoriesToExplore then Continue
    else SkipSubtree
  }

  /** The policy by depth below the starting directory: the starting
      directory and its immediate subdirectories are always entered, whatever
      their names; deeper ones exactly when their name is on the list. */
  lemma PolicyByDepth(startingDir: Path, rel: Path)
    ensures PreVisitDirectory(startingDir, startingDir + rel) == Continue
        <==> |rel| <= 1 || rel[|rel| - 1] in DirectoriesToExplore
  {
    var dir := startingDir + rel;
    if rel == [] {
      assert dir == startingDir;
    } else {
      assert dir != startingDir by { assert |dir| > |startingDir|; }
      assert Parent(dir) == startingDir + rel[..|rel| - 1];
      assert (Parent(dir) == startingDir) == (|rel| == 1) by {
        if Parent(dir) == startingDir { assert |Parent(dir)| == |startingDir|; }
      }
      assert FileName(dir) == rel[|rel| - 1];
    }
  }

  /** The walk may start at a directory or reach files and directories below
      it; it never calls the visitor for "/" as anything but the start. */
  predicate Visitable(startingDir: Path, node: Node, path: Path) {
    |path| > 0 || (node.Dir? && path == startingDir)
  }

  /** The paths that walkFileTree with this visitor adds, in order, for the
      subtree `node` found at `path`: a file is visited and kept when named
      persistence.xml; a directory is entered or skipped by the policy, and
      its entries are walked in listing order. */
  function Found(startingDir: Path, node: Node, path: Path): seq<Path>
    requires Visitable(startingDir, node, path)
    decreases node
  {
    match node
    case File(_, _) => if FileName(path) == TargetFileName then [path] else []
    case Dir(_, children) =>
      if PreVisitDirectory(startingDir, path) == Continue then FoundAmong(startingDir, node, path, |children|)
      else []
  }

  /** What the walk adds for the first `n` entries of the directory `dir`. */
  function FoundAmong(startingDir: Path, dir: Node, path: Path, n: nat): seq<Path>
    requires dir.Dir? && n <= |dir.children|
    decreases dir, n
  {
    if n == 0 then []
    else
      var c := dir.children[n - 1];
      FoundAmong(startingDir, dir, path, n - 1) + Found(startingDir, c, path + [c.name])
  }

  /** Independent description of the result: `p` lies in the subtree, is a
      regular file there called persistence.xml, and every directory on the
      way from `path` down to it is entered by the policy. */
  ghost predicate Collected(startingDir: Path, node: Node, path: Path, p: Path)
    requires Visitable(startingDir, node, path)
  {
    |path| <= |p| && p[..|path|] == path &&
    |p| > 0 && FileName(p) == TargetFileName &&
    (match NodeAt(node, p[|path|..]) case Some(n) => n.File? case None => false) &&
    forall k :: |path| <= k < |p| ==> (p[..k] == startingDir || k > 0) && PreVisitDirectory(startingDir, p[..k]) == Continue
  }

  /** Membership in FoundAmong is membership in what one of the entries adds. */
  lemma {:induction false} FoundAmongMember(startingDir: Path, dir: Node, path: Path, n: nat, p: Path)
    requires dir.Dir? && n <= |dir.children|
    ensures p in FoundAmong(startingDir, dir, path, n) <==>
            exists i :: 0 <= i < n && p in Found(startingDir, dir.children[i], path + [dir.children[i].name])
  {
    if n > 0 {
      FoundAmongMember(startingDir, dir, path, n - 1, p);
    }
  }

  /** The walk collects exactly the files described by Collected. */
  lemma {:induction false} FoundIff(startingDir: Path, node: Node, path: Path, p: Path)
    requires WellFormed(node)
    requires Visitable(startingDir, node, path)
    ensures p in Found(startingDir, node, path) <==> Collected(startingDir, node, path, p)
    decreases node
  {
    match node
    case File(_, _) =>
      if Collected(startingDir, node, path, p) {
        NodeAtFile(node, p[|path|..]);
        assert p == p[..|path|] + p[|path|..];
        assert p == path;
        assert p in Found(startingDir, node, path);
      }
      if p in Found(startingDir, node, path) {
        assert p == path;
        assert p[..|path|] == path;
        assert p[|path|..] == [];
        assert NodeAt(node, p[|path|..]) == Some(node);
        assert Collected(startingDir, node, path, p);
      }
    case Dir(_, cs) =>
      if PreVisitDirectory(startingDir, path) == SkipSubtree {
        assert !Collected(startingDir, node, path, p) by {
          if |path| <= |p| && p[..|path|] == path {
            if |p| == |path| {
              assert p[|path|..] == [];
            } else {
              assert PreVisitDirectory(startingDir, p[..|path|]) == SkipSubtree;
            }
          }
        }
      } else {
        FoundAmongMember(startingDir, node, path, |cs|, p);
        if p in Found(startingDir, node, path) {
          var i :| 0 <= i < |cs| && p in Found(startingDir, cs[i], path + [cs[i].name]);
          FoundIff(startingDir, cs[i], path + [cs[i].name], p);
          CollectedFromChild(startingDir, node, path, i, p);
        }
        if Collected(startingDir, node, path, p) {
          var i := CollectedInChild(startingDir, node, path, p);
          FoundIff(startingDir, cs[i], path + [cs[i].name], p);
        }
      }
  }

  /** A file collected below an entered directory's entry is collected below
      the directory. */
  lemma CollectedFromChild(startingDir: Path, node: Node, path: Path, i: int, p: Path)
    requires WellFormed(node) && node.Dir? && 0 <= i < |node.children|
    requires Visitable(startingDir, node, path)
    requires PreVisitDirectory(startingDir, path) == Continue
    requires Collected(startingDir, node.children[i], path + [node.children[i].name], p)
    ensures Collected(startingDir, node, path, p)
  {
    var cs := node.children;
    var c := cs[i];
    var q := path + [c.name];
    assert p[..|q|] == q;
    PathBelowEntry(p, path, c.name);
    var rel := p[|path|..];
    ChildIndexUnique(cs, i);
    assert NodeAt(node, rel) == NodeAt(c, p[|q|..]);
    forall k | |path| <= k < |p|
      ensures (p[..k] == startingDir || k > 0) && PreVisitDirectory(startingDir, p[..k]) == Continue
    {
      if k == |path| {
        assert p[..k] == path;
      }
    }
  }

  /** A path that starts with `path + [name]` starts with `path`, and
      continues with `name` and then the rest. */
  lemma PathBelowEntry(p: Path, path: Path, name: string)
    requires |path| + 1 <= |p| && p[..|path| + 1] == path + [name]
    ensures p[..|path|] == path
    ensures p[|path|..][0] == name && p[|path|..][1..] == p[|path| + 1..]
  {
    assert p[..|path|] == p[..|path| + 1][..|path|];
    assert p[|path|] == p[..|path| + 1][|path|];
  }

  /** A file collected below an entered directory lies below one of its
      entries, and is collected there. */
  lemma CollectedInChild(startingDir: Path, node: Node, path: Path, p: Path) returns (i: int)
    requires WellFormed(node) && node.Dir?
    requires Visitable(startingDir, node, path)
    requires Collected(startingDir, node, path, p)
    ensures 0 <= i < |node.children|
    ensures Collected(startingDir, node.children[i], path + [node.children[i].name], p)
  {
    var cs := node.children;
    var rel := p[|path|..];
    assert rel != [] by {
      assert NodeAt(node, []) == Some(node);
    }
    i := ChildIndex(cs, rel[0]);
    assert i < |cs|;
    var q := path + [cs[i].name];
    assert p[..|q|] == q by {
      assert p[..|q|] == p[..|path|] + [p[|path|]];
    }
    assert p[|q|..] == rel[1..];
    assert NodeAt(node, rel) == NodeAt(cs[i], rel[1..]);
  }

  /** Below a file there is nothing. */
  lemma NodeAtFile(node: Node, rel: Path)
    requires node.File?
    ensures NodeAt(node, rel).Some? ==> rel == []
  {
  }

  /** A found path names the file that the tree holds there. */
  lemma FoundIsFile(startingDir: Path, node: Node, path: Path, p: Path)
    requires WellFormed(node)
    requires Visitable(startingDir, node, path)
    requires p in Found(startingDir, node, path)
    ensures |path| <= |p| && p[..|path|] == path
    ensures |p| > 0 && FileName(p) == TargetFileName
    ensures match NodeAt(node, p[|path|..]) case Some(n) => n.File? case None => false
  {
    FoundIff(startingDir, node, path, p);
  }

  /** Every directory the walk had to enter to reach a found file is either
      the starting directory, one of its immediate subdirectories, or named
      on the list: nothing below a skipped directory is ever collected. */
  lemma FoundOnlyThroughEntered(startingDir: Path, node: Node, path: Path, p: Path, k: int)
    requires WellFormed(node)
    requires Visitable(startingDir, node, path)
    requires p in Found(startingDir, node, path)
    requires |path| <= k < |p|
    ensures p[..k] == startingDir || (k > 0 && Parent(p[..k]) == startingDir) ||
            (k > 0 && FileName(p[..k]) in DirectoriesToExplore)
  {
    FoundIff(startingDir, node, path, p);
  }

  /** Everything found below `path` starts with `path`. */
  lemma FoundUnderPath(startingDir: Path, node: Node, path: Path, p: Path)
    requires WellFormed(node)
    requires Visitable(startingDir, node, path)
    requires p in Found(startingDir, node, path)
    ensures |path| <= |p| && p[..|path|] == path
  {
    FoundIff(startingDir, node, path, p);
  }

  predicate NoDuplicates(ps: seq<Path>) {
    forall i, j :: 0 <= i < j < |ps| ==> ps[i] != ps[j]
  }

  /** In a well-formed tree each file is collected at most once. */
  lemma {:induction false} FoundNoDuplicates(startingDir: Path, node: Node, path: Path)
    requires WellFormed(node)
    requires Visitable(startingDir, node, path)
    ensures NoDuplicates(Found(startingDir, node, path))
    decreases node, 1
  {
    if node.Dir? && PreVisitDirectory(startingDir, path) == Continue {
      FoundAmongNoDuplicates(startingDir, node, path, |node.children|);
    }
  }

  lemma {:induction false} FoundAmongNoDuplicates(startingDir: Path, dir: Node, path: Path, n: nat)
    requires WellFormed(dir) && dir.Dir? && n <= |dir.children|
    requires Visitable(startingDir, dir, path)
    ensures NoDuplicates(FoundAmong(startingDir, dir, path, n))
    ensures BelowEntries(FoundAmong(startingDir, dir, path, n), |path|, dir.children, 0, n)
    decreases dir, 0, n
  {
    if n > 0 {
      var c := dir.children[n - 1];
      var a := FoundAmong(startingDir, dir, path, n - 1);
      var b := Found(startingDir, c, path + [c.name]);
      FoundAmongNoDuplicates(startingDir, dir, path, n - 1);
      FoundNoDuplicates(startingDir, c, path + [c.name]);
      FoundEntryName(startingDir, dir, path, n - 1);
      BelowEntriesAppend(a, b, |path|, dir.children, n - 1);
    }
  }

  /** Every path in `ps` has, at position `depth`, the name of one of the
      entries `lo` to `hi - 1` of `cs`. */
  ghost predicate BelowEntries(ps: seq<Path>, depth: nat, cs: seq<Node>, lo: nat, hi: nat) {
    forall k :: 0 <= k < |ps| ==> |ps[k]| > depth && lo <= ChildIndex(cs, ps[k][depth]) < hi
  }

  /** What the entry `i` adds lies below it. */
  lemma FoundEntryName(startingDir: Path, dir: Node, path: Path, i: nat)
    requires WellFormed(dir) && dir.Dir? && i < |dir.children|
    requires Visitable(startingDir, dir, path)
    ensures BelowEntries(Found(startingDir, dir.children[i], path + [dir.children[i].name]), |path|, dir.children, i, i + 1)
  {
    var c := dir.children[i];
    var q := path + [c.name];
    var b := Found(startingDir, c, q);
    ChildIndexUnique(dir.children, i);
    forall k | 0 <= k < |b| ensures |b[k]| > |path| && b[k][|path|] == c.name {
      FoundUnderPath(startingDir, c, q, b[k]);
      assert b[k][|path|] == b[k][..|q|][|path|];
    }
  }

  /** Paths below the first `m` entries, followed by paths below entry `m`,
      keep both properties: no duplicates, and below the first `m + 1`. */
  lemma BelowEntriesAppend(a: seq<Path>, b: seq<Path>, depth: nat, cs: seq<Node>, m: nat)
    requires NoDuplicates(a) && NoDuplicates(b)
    requires BelowEntries(a, depth, cs, 0, m) && BelowEntries(b, depth, cs, m, m + 1)
    ensures NoDuplicates(a + b) && BelowEntries(a + b, depth, cs, 0, m + 1)
  {
    forall i, j | 0 <= i < j < |a + b| ensures (a + b)[i] != (a + b)[j] {
      if j < |a| {
        assert (a + b)[i] == a[i] && (a + b)[j] == a[j];
      } else if i >= |a| {
        assert (a + b)[i] == b[i - |a|] && (a + b)[j] == b[j - |a|];
      } else {
        assert (a + b)[i] == a[i] && (a + b)[j] == b[j - |a|];
        assert ChildIndex(cs, a[i][depth]) < m <= ChildIndex(cs, b[j - |a|][depth]);
      }
    }
    forall k | 0 <= k < |a + b| ensures |(a + b)[k]| > depth && 0 <= ChildIndex(cs, (a + b)[k][depth]) < m + 1 {
      if k < |a| {
        assert (a + b)[k] == a[k];
      } else {
        assert (a + b)[k] == b[k - |a|];
      }
    }
  }
}
