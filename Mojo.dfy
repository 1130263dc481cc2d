/** PersistenceXmlMojo: find every persistence.xml under the starting
    directory, then rewrite the jar-file versions in each of them. */
module Mojo {
  import opened FileTree
  import opened Finder
  import opened JavaText
  import opened Rewriter

  /** How execute ends: normally, or with MojoExecutionException. */
  datatype Outcome = Done | ExecutionError(message: string)

  /** Guava's Strings.isNullOrEmpty; None stands for null. */
  predicate IsNullOrEmpty(s: Option<string>) {
    s.None? || s.value == []
  }

  /** What findPersistenceXmls adds: the walk from the starting directory,
      or nothing when walkFileTree throws because the directory is missing. */
  function FoundUnder(root: Node, startingDir: Path): seq<Path>
    requires root.Dir?
  {
    match NodeAt(root, startingDir)
    case None => []
    case Some(n) => Found(startingDir, n, startingDir)
  }

  /** The disk after `new FileReplace().doIt(p)` on a file that exists; a
      path that is not a file is left alone. */
  function RewriteFile(root: Node, p: Path, fromVersion: string, toVersion: string): Node {
    match ContentAt(root, p)
    case None => root
    case Some(text) => Store(root, p, RewrittenContent(text, fromVersion, toVersion))
  }

  /** The disk after transformPersistenceXmls over `ps`, in list order. */
  function TransformAll(root: Node, ps: seq<Path>, fromVersion: string, toVersion: string): Node {
    if ps == [] then root
    else RewriteFile(TransformAll(root, ps[..|ps| - 1], fromVersion, toVersion), ps[|ps| - 1], fromVersion, toVersion)
  }

  /** When the paths are distinct, each listed file ends up holding its own
      text rewritten once, and every other file is untouched. */
  lemma {:induction false} TransformAllEffect(root: Node, ps: seq<Path>, fromVersion: string, toVersion: string, q: Path)
    requires NoDuplicates(ps)
    ensures ContentAt(TransformAll(root, ps, fromVersion, toVersion), q) ==
            if q in ps && ContentAt(root, q).Some?
            then Some(RewrittenContent(ContentAt(root, q).value, fromVersion, toVersion))
            else ContentAt(root, q)
  {
    if ps != [] {
      var init := ps[..|ps| - 1];
      var last := ps[|ps| - 1];
      var mid := TransformAll(root, init, fromVersion, toVersion);
      assert NoDuplicates(init);
      TransformAllEffect(root, init, fromVersion, toVersion, q);
      TransformAllEffect(root, init, fromVersion, toVersion, last);
      assert last !in init;
      match ContentAt(mid, last)
      case None =>
      case Some(text) =>
        StoreFrame(mid, last, q, RewrittenContent(text, fromVersion, toVersion));
      assert q in ps <==> q in init || q == last;
    }
  }

  /** A rewrite never creates, removes or renames anything: the root stays a
      directory and a well-formed tree stays well formed. */
  lemma {:induction false} TransformAllShape(root: Node, ps: seq<Path>, fromVersion: string, toVersion: string)
    requires WellFormed(root)
    ensures TransformAll(root, ps, fromVersion, toVersion).Dir? == root.Dir?
    ensures WellFormed(TransformAll(root, ps, fromVersion, toVersion))
  {
    if ps != [] {
      var mid := TransformAll(root, ps[..|ps| - 1], fromVersion, toVersion);
      TransformAllShape(root, ps[..|ps| - 1], fromVersion, toVersion);
      var last := ps[|ps| - 1];
      if ContentAt(mid, last).Some? {
        StoreWellFormed(mid, last, RewrittenContent(ContentAt(mid, last).value, fromVersion, toVersion));
      }
    }
  }

  class PersistenceXmlMojo {
    var persistenceXmls: seq<Path>
    var startingDir: Path
    var fromVersion: Option<string>
    var toVersion: Option<string>

    /** A new mojo: no paths collected yet, no versions set, and the starting
        directory at the absolute form of the working directory. */
    constructor (workingDir: Path)
      ensures persistenceXmls == [] && startingDir == workingDir
      ensures fromVersion == None && toVersion == None
    {
      persistenceXmls := [];
      startingDir := workingDir;
      fromVersion := None;
      toVersion := None;
    }

    method FromVersion(fromVer: Option<string>) returns (self: PersistenceXmlMojo)
      modifies this
      ensures self == this && fromVersion == fromVer
      ensures persistenceXmls == old(persistenceXmls) && startingDir == old(startingDir) && toVersion == old(toVersion)
    {
      fromVersion := fromVer;
      self := this;
    }

    method ToVersion(toVer: Option<string>) returns (self: PersistenceXmlMojo)
      modifies this
      ensures self == this && toVersion == toVer
      ensures persistenceXmls == old(persistenceXmls) && startingDir == old(startingDir) && fromVersion == old(fromVersion)
    {
      toVersion := toVer;
      self := this;
    }

    method StartingDir(p: Path) returns (self: PersistenceXmlMojo)
      modifies this
      ensures self == this && startingDir == p
      ensures persistenceXmls == old(persistenceXmls) && fromVersion == old(fromVersion) && toVersion == old(toVersion)
    {
      startingDir := p;
      self := this;
    }

    method GetPersistenceXmls() returns (ps: seq<Path>)
      ensures ps == persistenceXmls
    {
      ps := persistenceXmls;
    }

    /** execute: both versions must be non-empty before anything is touched;
        then the walk appends what it finds and every collected path (the
        ones from earlier calls too, since the list is never cleared) is
        rewritten in list order. */
    method Execute(fs: FileSystem) returns (outcome: Outcome)
      requires fs.Valid()
      modifies this, fs
      ensures fs.Valid()
      ensures startingDir == old(startingDir) && fromVersion == old(fromVersion) && toVersion == old(toVersion)
      ensures outcome == if IsNullOrEmpty(toVersion) || IsNullOrEmpty(fromVersion)
                         then ExecutionError("toVersion and fromVersion must be set") else Done
      ensures outcome.ExecutionError? ==>
                persistenceXmls == old(persistenceXmls) && fs.root == old(fs.root)
      ensures outcome.Done? ==>
                persistenceXmls == old(persistenceXmls) + FoundUnder(old(fs.root), startingDir) &&
                fs.root == TransformAll(old(fs.root), persistenceXmls, fromVersion.value, toVersion.value)
    {
      if IsNullOrEmpty(toVersion) || IsNullOrEmpty(fromVersion) {
        return ExecutionError("toVersion and fromVersion must be set");
      }
      FindPersistenceXmls(fs);
      TransformPersistenceXmls(fs);
      return Done;
    }

    /** findPersistenceXmls: walk the tree from the starting directory. */
    method FindPersistenceXmls(fs: FileSystem)
      requires fs.Valid()
      modifies this
      ensures startingDir == old(startingDir) && fromVersion == old(fromVersion) && toVersion == old(toVersion)
      ensures persistenceXmls == old(persistenceXmls) + FoundUnder(fs.root, startingDir)
    {
      var start := NodeAt(fs.root, startingDir);
      if start.Some? {
        assert startingDir == [] ==> start.value == fs.root;
        WalkFileTree(start.value, startingDir);
      }
    }

    /** Files.walkFileTree with a PersistenceXmlFinder, from `node` at `path`:
        preVisitDirectory decides whether a directory's entries are walked,
        and visitFile sees every regular file reached. */
    method WalkFileTree(node: Node, path: Path)
      requires Visitable(startingDir, node, path)
      modifies this
      ensures startingDir == old(startingDir) && fromVersion == old(fromVersion) && toVersion == old(toVersion)
      ensures persistenceXmls == old(persistenceXmls) + Found(startingDir, node, path)
      decreases node
    {
      match node
      case File(_, _) =>
        VisitFile(path);
      case Dir(_, children) =>
        if PreVisitDirectory(startingDir, path) == Continue {
          for i := 0 to |children|
            invariant startingDir == old(startingDir) && fromVersion == old(fromVersion) && toVersion == old(toVersion)
            invariant persistenceXmls == old(persistenceXmls) + FoundAmong(startingDir, node, path, i)
          {
            var c := children[i];
            WalkFileTree(c, path + [c.name]);
          }
        }
    }

    /** visitFile: keep the file when its name is exactly persistence.xml. */
    method VisitFile(file: Path)
      requires |file| > 0
      modifies this
      ensures startingDir == old(startingDir) && fromVersion == old(fromVersion) && toVersion == old(toVersion)
      ensures persistenceXmls == old(persistenceXmls) + if FileName(file) == TargetFileName then [file] else []
    {
      var name := FileName(file);
      if name == TargetFileName {
        persistenceXmls := persistenceXmls + [file];
      }
    }

    /** transformPersistenceXmls: a fresh FileReplace for every collected
        path, in list order. */
    method TransformPersistenceXmls(fs: FileSystem)
      requires fs.Valid()
      requires fromVersion.Some? && toVersion.Some?
      modifies fs
      ensures fs.Valid()
      ensures fs.root == TransformAll(old(fs.root), persistenceXmls, fromVersion.value, toVersion.value)
    {
      for i := 0 to |persistenceXmls|
        invariant fs.Valid()
        invariant fs.root == TransformAll(old(fs.root), persistenceXmls[..i], fromVersion.value, toVersion.value)
      {
        var p := persistenceXmls[i];
        var replace := new FileReplace();
        var before := fs.root;
        replace.DoIt(p, fs, fromVersion.value, toVersion.value);
        assert fs.root == RewriteFile(before, p, fromVersion.value, toVersion.value) by {
          if ContentAt(before, p).Some? {
            assert replace.lines == RewriteLines(ReadLines(ContentAt(before, p).value), fromVersion.value, toVersion.value);
          }
        }
        assert TransformAll(old(fs.root), persistenceXmls[..i + 1], fromVersion.value, toVersion.value)
            == RewriteFile(TransformAll(old(fs.root), persistenceXmls[..i], fromVersion.value, toVersion.value), p, fromVersion.value, toVersion.value) by {
          assert persistenceXmls[..i + 1][..i] == persistenceXmls[..i];
        }
      }
      assert persistenceXmls[..|persistenceXmls|] == persistenceXmls;
    }
  }

  /** On a well-formed disk, a first successful execute collects each file at
      most once, and afterwards every collected file holds its original text
      rewritten once while every other file is as it was. */
  lemma ExecuteEffect(root: Node, startingDir: Path, fromVersion: string, toVersion: string, q: Path)
    requires root.Dir? && WellFormed(root)
    ensures NoDuplicates(FoundUnder(root, startingDir))
    ensures q in FoundUnder(root, startingDir) ==> ContentAt(root, q).Some?
    ensures ContentAt(TransformAll(root, FoundUnder(root, startingDir), fromVersion, toVersion), q) ==
            if q in FoundUnder(root, startingDir) && ContentAt(root, q).Some?
            then Some(RewrittenContent(ContentAt(root, q).value, fromVersion, toVersion))
            else ContentAt(root, q)
  {
    var ps := FoundUnder(root, startingDir);
    match NodeAt(root, startingDir)
    case None =>
    case Some(n) =>
      WellFormedBelow(root, startingDir);
      FoundNoDuplicates(startingDir, n, startingDir);
      if q in ps {
        FoundIsFile(startingDir, n, startingDir, q);
        assert q == startingDir + q[|startingDir|..];
        NodeAtAppend(root, startingDir, q[|startingDir|..]);
      }
    TransformAllEffect(root, ps, fromVersion, toVersion, q);
  }

  /** Every subtree of a well-formed tree is well formed. */
  lemma {:induction false} WellFormedBelow(root: Node, rel: Path)
    requires WellFormed(root)
    ensures NodeAt(root, rel).Some? ==> WellFormed(NodeAt(root, rel).value)
    decreases rel
  {
    if rel != [] && root.Dir? {
      var k := ChildIndex(root.children, rel[0]);
      if k < |root.children| {
        WellFormedBelow(root.children[k], rel[1..]);
      }
    }
  }
}
