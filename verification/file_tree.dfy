/** Scanning a directory into a tree of nodes, and listing the tree's nodes so that each gets an id
    (its position in the list). The filesystem is given as a tree of named entries; anything that is
    not a directory is an `EntryFile`. */
module FileTree {
  import opened Results

  /** A filesystem path as its components; joining with `/` appends one component, and the empty
      path `""` is the empty sequence. */
  type Path = seq<string>

  const INPUT_ROOT: string := "__INPUT_ROOT__"

  datatype Entry = EntryFile(name: string) | EntryDir(name: string, entries: seq<Entry>)

  /** `fTreeNode`. */
  datatype Node = Node(path: Path, relativePath: Path, isDirectory: bool, children: seq<Node>)

  /** The relative path handed down to the scan of a sub-directory `childName` of a directory
      whose own name is `dirName` and whose relative path is `rel`. As written, the source passes
      `relativePath / rootNode->path.filename()`: the current directory's name, not the child's. */
  function SubdirRel(v: Variant, rel: Path, dirName: string, childName: string): Path {
    match v
    case AsWritten => rel + [dirName]
    case Corrected => rel + [childName]
  }

  /** The relative path handed to the scan of a top-level directory: `""` as written. */
  function TopDirRel(v: Variant, name: string): Path {
    match v
    case AsWritten => []
    case Corrected => [name]
  }

  /** `n` is the scan of the entry `e` found at `path`: it has that path and kind, a file is a
      leaf, and a directory has one child per entry, in order, each the scan of that entry. */
  predicate Mirrors(n: Node, path: Path, e: Entry)
    decreases e
  {
    n.path == path && n.isDirectory == e.EntryDir? &&
    match e
    case EntryFile(_) => n.children == []
    case EntryDir(_, entries) =>
      |n.children| == |entries| &&
      forall i :: 0 <= i < |entries| ==> Mirrors(n.children[i], path + [entries[i].name], entries[i])
  }

  /** `s_buildFileTreeRecv(path, rel)` for the directory `dir` found at `path`: one child per entry,
      in iteration order; files carry `rel / filename`. */
  function BuildDir(v: Variant, path: Path, rel: Path, dir: Entry): (r: Node)
    requires dir.EntryDir?
    ensures Mirrors(r, path, dir) && r.relativePath == rel
    ensures forall i :: 0 <= i < |dir.entries| && dir.entries[i].EntryFile? ==>
      r.children[i].relativePath == rel + [dir.entries[i].name]
    decreases dir
  {
    Node(path, rel, true, seq(|dir.entries|, (i: int) requires 0 <= i < |dir.entries| =>
      var e := dir.entries[i];
      if e.EntryDir? then BuildDir(v, path + [e.name], SubdirRel(v, rel, dir.name, e.name), e)
      else Node(path + [e.name], rel + [e.name], false, [])))
  }

  /** `buildFileTree(path)`, where `at` is what exists at `path`. */
  function BuildFileTree(v: Variant, path: Path, at: Option<Entry>): (r: Option<Node>)
    ensures r.Some? <==> at.Some? && at.value.EntryDir?
    ensures r.Some? ==> r.value.path == path && r.value.relativePath == [INPUT_ROOT] && r.value.isDirectory
    ensures r.Some? ==> Mirrors(r.value, path, at.value)
    ensures r.Some? ==> forall i :: 0 <= i < |at.value.entries| && at.value.entries[i].EntryFile? ==>
      r.value.children[i].relativePath == [at.value.entries[i].name]
  {
    if at.Some? && at.value.EntryDir? then
      var es := at.value.entries;
      Some(Node(path, [INPUT_ROOT], true, seq(|es|, (i: int) requires 0 <= i < |es| =>
        var e := es[i];
        if e.EntryDir? then BuildDir(v, path + [e.name], TopDirRel(v, e.name), e)
        else Node(path + [e.name], [e.name], false, []))))
    else None
  }

  /** `bfsListFiles`: every child of `n` in order, then the listing of each child that has
      children. Directories are listed too. */
  function Flatten(n: Node): (r: seq<Node>)
    ensures |r| >= |n.children| && r[..|n.children|] == n.children
    decreases n, 1, 0
  {
    n.children + FlattenFrom(n, 0)
  }

  function FlattenFrom(p: Node, i: nat): seq<Node>
    decreases p, 0, |p.children| - i
  {
    if i >= |p.children| then []
    else (if |p.children[i].children| > 0 then Flatten(p.children[i]) else []) + FlattenFrom(p, i + 1)
  }

  /** Reference listing: every node below `n` in depth-first pre-order. */
  function Descendants(n: Node): seq<Node>
    decreases n, 1, 0
  {
    DescendantsFrom(n, 0)
  }

  function DescendantsFrom(p: Node, i: nat): seq<Node>
    decreases p, 0, |p.children| - i
  {
    if i >= |p.children| then []
    else [p.children[i]] + Descendants(p.children[i]) + DescendantsFrom(p, i + 1)
  }

  /** The listing holds every node below the root exactly as often as the depth-first listing
      does: each non-root node once, so there are as many ids as non-root nodes. */
  lemma {:induction false} FlattenIsPermutation(n: Node)
    ensures multiset(Flatten(n)) == multiset(Descendants(n))
    ensures |Flatten(n)| == |Descendants(n)|
    decreases n, 1, 0
  {
    FlattenFromIsPermutation(n, 0);
    assert n.children[0..] == n.children;
    assert |multiset(Flatten(n))| == |Flatten(n)|;
  }

  lemma {:induction false} FlattenFromIsPermutation(p: Node, i: nat)
    requires i <= |p.children|
    ensures multiset(FlattenFrom(p, i)) + multiset(p.children[i..]) == multiset(DescendantsFrom(p, i))
    decreases p, 0, |p.children| - i
  {
    if i < |p.children| {
      var c := p.children[i];
      var listed := if |c.children| > 0 then Flatten(c) else [];
      var rest, restDesc := FlattenFrom(p, i + 1), DescendantsFrom(p, i + 1);
      assert FlattenFrom(p, i) == listed + rest;
      assert DescendantsFrom(p, i) == [c] + Descendants(c) + restDesc;
      if |c.children| > 0 {
        FlattenIsPermutation(c);
      } else {
        assert Descendants(c) == [];
      }
      FlattenFromIsPermutation(p, i + 1);
      SuffixMultiset(p.children, i);
      MultisetRegroup(multiset(FlattenFrom(p, i)), multiset(listed), multiset(rest),
        multiset(p.children[i..]), multiset{c}, multiset(p.children[i + 1..]),
        multiset(DescendantsFrom(p, i)), multiset(Descendants(c)), multiset(restDesc));
    }
  }

  lemma SuffixMultiset<T>(s: seq<T>, i: nat)
    requires i < |s|
    ensures multiset(s[i..]) == multiset{s[i]} + multiset(s[i + 1..])
  {
    assert s[i..] == [s[i]] + s[i + 1..];
  }

  lemma MultisetRegroup<T>(whole: multiset<T>, first: multiset<T>, rest: multiset<T>,
                           kids: multiset<T>, head: multiset<T>, tail: multiset<T>,
                           desc: multiset<T>, headDesc: multiset<T>, restDesc: multiset<T>)
    requires whole == first + rest && kids == head + tail
    requires desc == head + headDesc + restDesc
    requires first == headDesc && rest + tail == restDesc
    ensures whole + kids == desc
  {
  }

  /** How a node's relative path relates to the components of its path below the scanned root
      `base`. Corrected, they coincide. As written, a directory carries its parent's relative path,
      and a file carries its grandparent's relative path followed by its own name, so a file's
      immediate directory never appears in it. */
  predicate RelativePathOk(v: Variant, base: Path, n: Node) {
    |base| < |n.path| && n.path[..|base|] == base &&
    var names := n.path[|base|..];
    match v
    case Corrected => n.relativePath == names
    case AsWritten =>
      if n.isDirectory then n.relativePath == names[..|names| - 1]
      else if |names| == 1 then n.relativePath == names
      else n.relativePath == names[..|names| - 2] + [names[|names| - 1]]
  }

  predicate SubtreeOk(v: Variant, base: Path, n: Node)
    decreases n
  {
    RelativePathOk(v, base, n) && forall i :: 0 <= i < |n.children| ==> SubtreeOk(v, base, n.children[i])
  }

  lemma {:induction false} BuildDirOk(v: Variant, base: Path, names: Path, rel: Path, dir: Entry)
    requires dir.EntryDir? && |names| >= 1 && names[|names| - 1] == dir.name
    requires rel == if v == Corrected then names else names[..|names| - 1]
    ensures SubtreeOk(v, base, BuildDir(v, base + names, rel, dir))
    decreases dir
  {
    var n := BuildDir(v, base + names, rel, dir);
    assert (base + names)[..|base|] == base && (base + names)[|base|..] == names;
    forall i | 0 <= i < |n.children|
      ensures SubtreeOk(v, base, n.children[i])
    {
      var e := dir.entries[i];
      var names' := names + [e.name];
      assert (base + names')[..|base|] == base && (base + names')[|base|..] == names';
      assert base + names + [e.name] == base + names';
      if e.EntryDir? {
        assert names'[..|names'| - 1] == names;
        if v == AsWritten {
          assert names == names[..|names| - 1] + [dir.name];
        }
        BuildDirOk(v, base, names', SubdirRel(v, rel, dir.name, e.name), e);
      } else {
        assert names'[..|names'| - 2] == names[..|names| - 1];
      }
    }
  }

  lemma {:induction false} DescendantsOk(v: Variant, base: Path, n: Node)
    requires forall i :: 0 <= i < |n.children| ==> SubtreeOk(v, base, n.children[i])
    ensures forall m :: m in Descendants(n) ==> RelativePathOk(v, base, m)
    decreases n, 1, 0
  {
    DescendantsFromOk(v, base, n, 0);
  }

  lemma {:induction false} DescendantsFromOk(v: Variant, base: Path, p: Node, i: nat)
    requires forall j :: 0 <= j < |p.children| ==> SubtreeOk(v, base, p.children[j])
    ensures forall m :: m in DescendantsFrom(p, i) ==> RelativePathOk(v, base, m)
    decreases p, 0, |p.children| - i
  {
    if i < |p.children| {
      var c := p.children[i];
      DescendantsOk(v, base, c);
      DescendantsFromOk(v, base, p, i + 1);
    }
  }

  /** Every node of a scanned tree lies below the root, and its relative path is as
      `RelativePathOk` describes for the variant. */
  lemma ScannedRelativePaths(v: Variant, path: Path, at: Option<Entry>)
    requires BuildFileTree(v, path, at).Some?
    ensures forall m :: m in Flatten(BuildFileTree(v, path, at).value) ==> RelativePathOk(v, path, m)
  {
    var t := BuildFileTree(v, path, at).value;
    var es := at.value.entries;
    forall i | 0 <= i < |t.children|
      ensures SubtreeOk(v, path, t.children[i])
    {
      var e := es[i];
      assert (path + [e.name])[..|path|] == path && (path + [e.name])[|path|..] == [e.name];
      if e.EntryDir? {
        BuildDirOk(v, path, [e.name], TopDirRel(v, e.name), e);
      }
    }
    DescendantsOk(v, path, t);
    FlattenIsPermutation(t);
    forall m | m in Flatten(t)
      ensures RelativePathOk(v, path, m)
    {
      assert m in multiset(Flatten(t));
    }
  }

  /** With the relative path handed down corrected, every listed node's path is the scanned root
      followed by its relative path. */
  lemma CorrectedRelativePaths(path: Path, at: Option<Entry>)
    requires BuildFileTree(Corrected, path, at).Some?
    ensures forall m :: m in Flatten(BuildFileTree(Corrected, path, at).value) ==> m.path == path + m.relativePath
  {
    ScannedRelativePaths(Corrected, path, at);
    forall m | m in Flatten(BuildFileTree(Corrected, path, at).value)
      ensures m.path == path + m.relativePath
    {
      assert m.path == m.path[..|path|] + m.path[|path|..];
    }
  }

  /** As written, a top-level file `f` and a file `D/f` are listed with the same relative path. */
  lemma NestedFileLosesDirectory()
    ensures var t := BuildFileTree(AsWritten, ["root"], Some(EntryDir("root", [EntryFile("f"), EntryDir("D", [EntryFile("f")])])));
      t.Some? && |Flatten(t.value)| == 3 &&
      Flatten(t.value)[0].path == ["root", "f"] && Flatten(t.value)[2].path == ["root", "D", "f"] &&
      Flatten(t.value)[0].relativePath == Flatten(t.value)[2].relativePath == ["f"]
  {
    var t := BuildFileTree(AsWritten, ["root"], Some(EntryDir("root", [EntryFile("f"), EntryDir("D", [EntryFile("f")])]))).value;
    var d := t.children[1];
    assert |d.children| == 1 && d.children[0] == Node(["root", "D", "f"], ["f"], false, []);
    assert FlattenFrom(d, 1) == [];
    assert FlattenFrom(d, 0) == [] + FlattenFrom(d, 1);
    assert Flatten(d) == [d.children[0]];
    assert FlattenFrom(t, 0) == [] + FlattenFrom(t, 1);
    assert FlattenFrom(t, 1) == Flatten(d) + FlattenFrom(t, 2);
  }
}
