/** The part of the filesystem the plugin walks, reads and writes: a tree of
    directories and text files, addressed by absolute paths. */
module FileTree {

  datatype Option<T> = None | Some(value: T)

  /** An absolute, normalised path (no `.` or `..`) as its name components;
      `[]` is the filesystem root "/". */
  type Path = seq<string>

  /** A directory with its entries in listing order, or a file with its text. */
  datatype Node = Dir(name: string, children: seq<Node>) | File(name: string, content: string)

  /** Path.getParent of a path other than the root. */
  function Parent(p: Path): Path
    requires |p| > 0
  {
    p[..|p| - 1]
  }

  /** Path.getFileName of a path other than the root. */
  function FileName(p: Path): string
    requires |p| > 0
  {
    p[|p| - 1]
  }

  /** Index of the first entry called `x`, or `|cs|` when there is none. */
  function ChildIndex(cs: seq<Node>, x: string): (k: nat)
    ensures k <= |cs|
    ensures k < |cs| ==> cs[k].name == x
  {
    if cs == [] then 0
    else if cs[0].name == x then 0
    else 1 + ChildIndex(cs[1..], x)
  }

  /** The node reached from `node` by following the names in `rel`. */
  function NodeAt(node: Node, rel: Path): Option<Node>
    decreases rel
  {
    if rel == [] then Some(node)
    else match node
      case File(_, _) => None
      case Dir(_, cs) =>
        var k := ChildIndex(cs, rel[0]);
        if k == |cs| then None else NodeAt(cs[k], rel[1..])
  }

  /** The text of the regular file at `p`, or None when there is no such file
      (which is when FileReader throws FileNotFoundException). */
  function ContentAt(root: Node, p: Path): Option<string> {
    match NodeAt(root, p)
    case Some(File(_, text)) => Some(text)
    case _ => None
  }

  /** `node` with the file at `rel` holding `text`; unchanged when there is no
      file there. */
  function Store(node: Node, rel: Path, text: string): (r: Node)
    ensures r.name == node.name && r.Dir? == node.Dir?
    ensures r.Dir? ==> |r.children| == |node.children|
    ensures r.Dir? ==> forall j :: 0 <= j < |r.children| ==> r.children[j].name == node.children[j].name
    decreases rel
  {
    if rel == [] then
      (if node.File? then File(node.name, text) else node)
    else match node
      case File(_, _) => node
      case Dir(n, cs) =>
        var k := ChildIndex(cs, rel[0]);
        if k == |cs| then node else Dir(n, cs[k := Store(cs[k], rel[1..], text)])
  }

  /** No directory lists two entries with the same name, as on a real disk. */
  ghost predicate WellFormed(node: Node)
    decreases node
  {
    match node
    case File(_, _) => true
    case Dir(_, cs) =>
      (forall i, j :: 0 <= i < j < |cs| ==> cs[i].name != cs[j].name) &&
      (forall i :: 0 <= i < |cs| ==> WellFormed(cs[i]))
  }

  /** Following a path in two steps is following it at once. */
  lemma {:induction false} NodeAtAppend(node: Node, a: Path, b: Path)
    ensures NodeAt(node, a + b) ==
            match NodeAt(node, a) case None => None case Some(n) => NodeAt(n, b)
    decreases a
  {
    if a == [] {
      assert a + b == b;
    } else {
      assert (a + b)[0] == a[0] && (a + b)[1..] == a[1..] + b;
      match node
      case File(_, _) =>
      case Dir(_, cs) =>
        var k := ChildIndex(cs, a[0]);
        if k < |cs| {
          NodeAtAppend(cs[k], a[1..], b);
        }
    }
  }

  /** In a well-formed directory the entry called `cs[i].name` is `cs[i]`. */
  lemma ChildIndexUnique(cs: seq<Node>, i: int)
    requires 0 <= i < |cs|
    requires forall a, b :: 0 <= a < b < |cs| ==> cs[a].name != cs[b].name
    ensures ChildIndex(cs, cs[i].name) == i
  {
    ChildIndexFirst(cs, cs[i].name);
  }

  /** No entry before the one ChildIndex picks has the name looked for. */
  lemma {:induction false} ChildIndexFirst(cs: seq<Node>, x: string)
    ensures forall j :: 0 <= j < ChildIndex(cs, x) ==> cs[j].name != x
  {
    if cs != [] && cs[0].name != x {
      ChildIndexFirst(cs[1..], x);
    }
  }

  /** Writing a file changes the text of that file, if it exists, and of no
      other file. */
  lemma {:induction false} StoreFrame(node: Node, p: Path, q: Path, text: string)
    ensures ContentAt(Store(node, p, text), q) ==
            if q == p && ContentAt(node, p).Some? then Some(text) else ContentAt(node, q)
    decreases p
  {
    var r := Store(node, p, text);
    if p == [] {
      if q != [] && node.Dir? {
        assert r == node;
      }
    } else {
      match node
      case File(_, _) =>
      case Dir(n, cs) =>
        var k := ChildIndex(cs, p[0]);
        if k < |cs| && q != [] {
          var rs := r.children;
          var kq := ChildIndex(cs, q[0]);
          ChildIndexSameNames(cs, rs, q[0]);
          if kq < |cs| {
            if kq == k {
              StoreFrame(cs[k], p[1..], q[1..], text);
              assert (q == p) == (q[1..] == p[1..]) by {
                if q[1..] == p[1..] { assert q == [q[0]] + q[1..] && p == [p[0]] + p[1..]; }
              }
            } else {
              assert rs[kq] == cs[kq];
              assert q != p;
            }
          }
        }
    }
  }

  /** Entry lookup by name only looks at names. */
  lemma {:induction false} ChildIndexSameNames(cs: seq<Node>, ds: seq<Node>, x: string)
    requires |cs| == |ds|
    requires forall j :: 0 <= j < |cs| ==> cs[j].name == ds[j].name
    ensures ChildIndex(cs, x) == ChildIndex(ds, x)
  {
    if cs != [] && cs[0].name != x {
      ChildIndexSameNames(cs[1..], ds[1..], x);
    }
  }

  /** Writing a file creates, removes or renames nothing: every path leads
      to a node exactly when it did before, and to a directory exactly when
      it did before. */
  lemma {:induction false} StoreKeepsShape(node: Node, p: Path, q: Path, text: string)
    ensures NodeAt(Store(node, p, text), q).Some? == NodeAt(node, q).Some?
    ensures NodeAt(Store(node, p, text), q).Some? ==>
              NodeAt(Store(node, p, text), q).value.Dir? == NodeAt(node, q).value.Dir?
    decreases q
  {
    var r := Store(node, p, text);
    if q != [] && p != [] && node.Dir? {
      var cs := node.children;
      var k := ChildIndex(cs, p[0]);
      if k < |cs| {
        var rs := r.children;
        var kq := ChildIndex(cs, q[0]);
        ChildIndexSameNames(cs, rs, q[0]);
        if kq < |cs| {
          if kq == k {
            StoreKeepsShape(cs[k], p[1..], q[1..], text);
          } else {
            assert rs[kq] == cs[kq];
          }
        }
      }
    }
  }

  /** Writing a file keeps the tree well formed: only text changes. */
  lemma {:induction false} StoreWellFormed(node: Node, p: Path, text: string)
    requires WellFormed(node)
    ensures WellFormed(Store(node, p, text))
    decreases p
  {
    if p != [] && node.Dir? {
      var k := ChildIndex(node.children, p[0]);
      if k < |node.children| {
        StoreWellFormed(node.children[k], p[1..], text);
      }
    }
  }

  /** The disk. java.io file access is reached through Read and Write only. */
  class FileSystem {
    var root: Node

    /** The root of the filesystem is a directory. */
    ghost predicate Valid()
      reads this
    {
      root.Dir?
    }

    constructor (tree: Node)
      requires tree.Dir?
      ensures Valid() && root == tree
    {
      root := tree;
    }

    /** Opening and reading a whole file: None stands for the exception thrown
        when `p` is not a regular file. */
    method Read(p: Path) returns (text: Option<string>)
      ensures text == ContentAt(root, p)
    {
      text := ContentAt(root, p);
    }

    /** Overwriting an existing file with `text`. */
    method Write(p: Path, text: string)
      requires Valid() && ContentAt(root, p).Some?
      modifies this
      ensures Valid()
      ensures root == Store(old(root), p, text)
      ensures forall q :: ContentAt(root, q) == if q == p then Some(text) else ContentAt(old(root), q)
    {
      var before := root;
      root := Store(root, p, text);
      forall q ensures ContentAt(root, q) == if q == p then Some(text) else ContentAt(before, q) {
        StoreFrame(before, p, q, text);
      }
    }
  }
}
