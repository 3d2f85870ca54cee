/** The update-file generation of `main` (main_vct.cpp:159-320): list both trees, hash every old
    and new file, index the old files, and write one instruction stream per new file under its
    relative path. Reading a file is the parameter `read`; `None` is a file that cannot be opened,
    on which `sha256File` throws. */
module Pipeline {
  import opened Bytes
  import opened Results
  import opened Wire
  import opened Hashing
  import opened Index
  import opened Diff
  import opened Patch
  import opened FileTree

  datatype RunError =
    | NotADirectory(root: Path)   // the tree root is missing or not a directory: the source dereferences a null tree
    | EmptySource                 // no old entries: `progress_bar::ranged(0, -1)` throws "start > end"
    | Unreadable(path: Path)      // `sha256File` throws "Cannot open file"

  /** One file of the output directory: its relative path and its instruction stream. */
  datatype Output = Output(relativePath: Path, stream: seq<byte>)

  /** `bfsListFiles`: the (path, relative path) pairs of the listing, in order; a pair's
      position is the file's id. */
  function Listing(n: Node): (r: seq<(Path, Path)>)
    ensures |r| == |Flatten(n)|
    ensures forall i :: 0 <= i < |r| ==> r[i] == (Flatten(n)[i].path, Flatten(n)[i].relativePath)
    ensures |r| == |Descendants(n)|
    ensures forall m :: m in Descendants(n) ==> (m.path, m.relativePath) in r
  {
    var nodes := Flatten(n);
    FlattenIsPermutation(n);
    assert forall m :: m in Descendants(n) ==> m in nodes by {
      forall m | m in Descendants(n)
        ensures m in nodes
      {
        assert m in multiset(Descendants(n));
        assert m in multiset(nodes);
      }
    }
    seq(|nodes|, (i: int) requires 0 <= i < |nodes| => (nodes[i].path, nodes[i].relativePath))
  }

  function Paths(listing: seq<(Path, Path)>): (r: seq<Path>)
    ensures |r| == |listing| && forall i :: 0 <= i < |r| ==> r[i] == listing[i].0
  {
    seq(|listing|, (i: int) requires 0 <= i < |listing| => listing[i].0)
  }

  /** The first path of the list that cannot be opened, or `|paths|` when all can. */
  function FirstUnreadable(paths: seq<Path>, read: Path -> Option<seq<byte>>): (u: nat)
    ensures u <= |paths|
    ensures forall i :: 0 <= i < u ==> read(paths[i]).Some?
    ensures u < |paths| ==> read(paths[u]).None?
  {
    FirstWhere(paths, (p: Path) => read(p).None?)
  }

  /** `path` is the path of a listed node that cannot be opened, and every node listed before it
      can be. */
  predicate FirstUnreadableNode(nodes: seq<Node>, read: Path -> Option<seq<byte>>, path: Path) {
    exists u :: 0 <= u < |nodes| && nodes[u].path == path && read(path).None? &&
      forall q :: 0 <= q < u ==> read(nodes[q].path).Some?
  }

  /** The first unreadable path of a listing is its first unreadable node's. */
  lemma FirstUnreadableListed(n: Node, read: Path -> Option<seq<byte>>)
    requires FirstUnreadable(Paths(Listing(n)), read) < |Flatten(n)|
    ensures FirstUnreadableNode(Flatten(n), read, Paths(Listing(n))[FirstUnreadable(Paths(Listing(n)), read)])
  {
    var paths := Paths(Listing(n));
    var u := FirstUnreadable(paths, read);
    assert Flatten(n)[u].path == paths[u];
    forall q | 0 <= q < u
      ensures read(Flatten(n)[q].path).Some?
    {
      assert Flatten(n)[q].path == paths[q];
    }
  }

  /** The contents of files that can all be opened, by id. */
  function Contents(paths: seq<Path>, read: Path -> Option<seq<byte>>): (r: seq<seq<byte>>)
    requires forall i :: 0 <= i < |paths| ==> read(paths[i]).Some?
    ensures |r| == |paths| && forall i :: 0 <= i < |paths| ==> read(paths[i]) == Some(r[i])
  {
    seq(|paths|, (i: int) requires 0 <= i < |paths| => read(paths[i]).value)
  }

  /** The stream written for one new file; the variant selects the block verification. */
  function Stream(v: Variant, oldFiles: seq<seq<byte>>, fileIdx: map<string, seq<nat>>, blockIdx: map<string, seq<(nat, nat)>>,
                  newFile: seq<byte>, md: seq<byte> -> seq<byte>, blockSize: nat): (r: seq<byte>)
    requires blockSize > 0
    ensures |r| > 0 && r[|r| - 1] == DONE
  {
    var newHash := Sha256(md, newFile);
    var newBlocks := BlockHashes(md, newFile, blockSize);
    match v
    case AsWritten => DiffFile(oldFiles, fileIdx, blockIdx, newFile, newHash, newBlocks, blockSize)
    case Corrected => DiffFileCorrected(oldFiles, fileIdx, blockIdx, newFile, newHash, newBlocks, blockSize)
  }

  /** The update files for all new files, against indexes of the old files' digests
      (main_vct.cpp:226-240) and the loop at main_vct.cpp:248-320. */
  function DiffAll(v: Variant, md: seq<byte> -> seq<byte>, oldFiles: seq<seq<byte>>,
                   newRelativePaths: seq<Path>, newFiles: seq<seq<byte>>, blockSize: nat): (r: seq<Output>)
    requires blockSize > 0 && |newRelativePaths| == |newFiles|
    ensures |r| == |newFiles|
    ensures forall i :: 0 <= i < |r| ==> r[i].relativePath == newRelativePaths[i]
  {
    var fileIdx := FileIndex(AllDigests(md, oldFiles));
    var blockIdx := BlockIndex(AllBlockHashes(md, oldFiles, blockSize));
    var streams := seq(|newFiles|, (i: int) requires 0 <= i < |newFiles| => Stream(v, oldFiles, fileIdx, blockIdx, newFiles[i], md, blockSize));
    seq(|newFiles|, (i: int) requires 0 <= i < |newFiles| =>
      Output(newRelativePaths[i], streams[i]))
  }

  /** Every stream of `DiffAll` rebuilds its new file from the old files: always when corrected,
      and as written whenever the digest has no collisions. */
  lemma DiffAllRebuilds(v: Variant, md: seq<byte> -> seq<byte>, oldFiles: seq<seq<byte>>,
                        newRelativePaths: seq<Path>, newFiles: seq<seq<byte>>, blockSize: nat)
    requires blockSize > 0 && |newRelativePaths| == |newFiles| && FitsInWords(oldFiles)
    requires v == AsWritten ==> Injective(md)
    ensures var r := DiffAll(v, md, oldFiles, newRelativePaths, newFiles, blockSize);
      forall i :: 0 <= i < |r| ==> Reconstruct(oldFiles, r[i].stream, blockSize) == Some(newFiles[i])
  {
    var r := DiffAll(v, md, oldFiles, newRelativePaths, newFiles, blockSize);
    var fileIdx := FileIndex(AllDigests(md, oldFiles));
    var blockIdx := BlockIndex(AllBlockHashes(md, oldFiles, blockSize));
    forall i | 0 <= i < |r|
      ensures Reconstruct(oldFiles, r[i].stream, blockSize) == Some(newFiles[i])
    {
      var newFile := newFiles[i];
      if v == AsWritten {
        DiffFileRebuilds(md, oldFiles, fileIdx, newFile, Sha256(md, newFile), blockSize);
      } else {
        DiffFileCorrectedRebuilds(md, oldFiles, fileIdx, blockIdx, newFile, Sha256(md, newFile), blockSize);
      }
    }
  }

  /** Hashing the listed new files and writing their streams (main_vct.cpp:201-320), once the
      old files have been read. */
  function DiffTree(v: Variant, oldFiles: seq<seq<byte>>, newTree: Node, read: Path -> Option<seq<byte>>,
                    md: seq<byte> -> seq<byte>, blockSize: nat): (r: Result<seq<Output>, RunError>)
    requires blockSize > 0
    ensures r.Success? ==> |r.value| == |Flatten(newTree)| && forall i :: 0 <= i < |r.value| ==>
      read(Flatten(newTree)[i].path).Some? && r.value[i].relativePath == Flatten(newTree)[i].relativePath
    ensures r.Failure? ==> r.error.Unreadable? && FirstUnreadableNode(Flatten(newTree), read, r.error.path)
  {
    var newList := Listing(newTree);
    var newPaths := Paths(newList);
    var w := FirstUnreadable(newPaths, read);
    if w < |newPaths| then
      FirstUnreadableListed(newTree, read);
      Failure(Unreadable(newPaths[w]))
    else
      var rels := seq(|newList|, (i: int) requires 0 <= i < |newList| => newList[i].1);
      Success(DiffAll(v, md, oldFiles, rels, Contents(newPaths, read), blockSize))
  }

  /** Every old path is readable once the first unreadable one lies past the end. */
  lemma AllReadable(n: Node, read: Path -> Option<seq<byte>>)
    requires FirstUnreadable(Paths(Listing(n)), read) == |Flatten(n)|
    ensures forall m :: m in Flatten(n) ==> read(m.path).Some?
  {
    forall m | m in Flatten(n)
      ensures read(m.path).Some?
    {
      var i :| 0 <= i < |Flatten(n)| && Flatten(n)[i] == m;
      assert Paths(Listing(n))[i] == m.path;
    }
  }

  /** The whole run, failing as the source does at the first failing step. */
  function Run(v: Variant, oldRoot: Path, oldAt: Option<Entry>, newRoot: Path, newAt: Option<Entry>,
               read: Path -> Option<seq<byte>>, md: seq<byte> -> seq<byte>, blockSize: nat): (r: Result<seq<Output>, RunError>)
    requires blockSize > 0
    ensures BuildFileTree(v, oldRoot, oldAt).None? ==> r == Failure(NotADirectory(oldRoot))
    ensures r == Failure(EmptySource) <==>
      BuildFileTree(v, oldRoot, oldAt).Some? && |Flatten(BuildFileTree(v, oldRoot, oldAt).value)| == 0
    ensures r.Success? ==>
      var oldTree := BuildFileTree(v, oldRoot, oldAt);
      var newTree := BuildFileTree(v, newRoot, newAt);
      oldTree.Some? && newTree.Some? &&
      (forall m :: m in Flatten(oldTree.value) ==> read(m.path).Some?) &&
      |r.value| == |Flatten(newTree.value)| &&
      forall i :: 0 <= i < |r.value| ==>
        read(Flatten(newTree.value)[i].path).Some? && r.value[i].relativePath == Flatten(newTree.value)[i].relativePath
    ensures var oldTree := BuildFileTree(v, oldRoot, oldAt);
      (oldTree.Some? && |Flatten(oldTree.value)| > 0 && (forall m :: m in Flatten(oldTree.value) ==> read(m.path).Some?) &&
       BuildFileTree(v, newRoot, newAt).None?) ==> r == Failure(NotADirectory(newRoot))
    ensures r.Failure? && r.error.Unreadable? ==>
      var oldTree := BuildFileTree(v, oldRoot, oldAt);
      var newTree := BuildFileTree(v, newRoot, newAt);
      oldTree.Some? &&
      (FirstUnreadableNode(Flatten(oldTree.value), read, r.error.path) ||
       ((forall m :: m in Flatten(oldTree.value) ==> read(m.path).Some?) &&
        newTree.Some? && FirstUnreadableNode(Flatten(newTree.value), read, r.error.path)))
  {
    var oldTree := BuildFileTree(v, oldRoot, oldAt);
    if oldTree.None? then Failure(NotADirectory(oldRoot))
    else
      var oldPaths := Paths(Listing(oldTree.value));
      if |oldPaths| == 0 then Failure(EmptySource)
      else
        var u := FirstUnreadable(oldPaths, read);
        if u < |oldPaths| then
          FirstUnreadableListed(oldTree.value, read);
          AllListedReadable(oldTree.value, read);
          Failure(Unreadable(oldPaths[u]))
        else
          var newTree := BuildFileTree(v, newRoot, newAt);
          if newTree.None? then Failure(NotADirectory(newRoot))
          else
            AllReadable(oldTree.value, read);
            DiffTree(v, Contents(oldPaths, read), newTree.value, read, md, blockSize)
  }

  /** The old files as the run reads them, by id. */
  function OldFiles(n: Node, read: Path -> Option<seq<byte>>): seq<seq<byte>>
    requires forall m :: m in Flatten(n) ==> read(m.path).Some?
  {
    var paths := Paths(Listing(n));
    assert forall i :: 0 <= i < |paths| ==> read(paths[i]).Some? by {
      forall i | 0 <= i < |paths|
        ensures read(paths[i]).Some?
      {
        assert Flatten(n)[i] in Flatten(n);
      }
    }
    Contents(paths, read)
  }

  /** Every stream `DiffTree` writes rebuilds its new file from the old files. */
  lemma DiffTreeRebuilds(v: Variant, oldFiles: seq<seq<byte>>, newTree: Node, read: Path -> Option<seq<byte>>,
                         md: seq<byte> -> seq<byte>, blockSize: nat)
    requires blockSize > 0 && FitsInWords(oldFiles)
    requires v == AsWritten ==> Injective(md)
    requires DiffTree(v, oldFiles, newTree, read, md, blockSize).Success?
    ensures var r := DiffTree(v, oldFiles, newTree, read, md, blockSize).value;
      forall i :: 0 <= i < |r| ==> Reconstruct(oldFiles, r[i].stream, blockSize) == read(Flatten(newTree)[i].path)
  {
    var newList := Listing(newTree);
    var newPaths := Paths(newList);
    var rels := seq(|newList|, (i: int) requires 0 <= i < |newList| => newList[i].1);
    DiffAllRebuilds(v, md, oldFiles, rels, Contents(newPaths, read), blockSize);
  }

  /** A successful run writes, for every new file, a stream from which the old files rebuild
      that file's contents: always when corrected, and as written whenever the digest has no
      collisions. */
  lemma RunRebuilds(v: Variant, oldRoot: Path, oldAt: Option<Entry>, newRoot: Path, newAt: Option<Entry>,
                    read: Path -> Option<seq<byte>>, md: seq<byte> -> seq<byte>, blockSize: nat)
    requires blockSize > 0
    requires Run(v, oldRoot, oldAt, newRoot, newAt, read, md, blockSize).Success?
    requires v == AsWritten ==> Injective(md)
    requires forall m :: m in Flatten(BuildFileTree(v, oldRoot, oldAt).value) ==> |read(m.path).value| <= WORD
    requires |Flatten(BuildFileTree(v, oldRoot, oldAt).value)| <= WORD
    ensures var r := Run(v, oldRoot, oldAt, newRoot, newAt, read, md, blockSize).value;
      var oldFiles := OldFiles(BuildFileTree(v, oldRoot, oldAt).value, read);
      var newNodes := Flatten(BuildFileTree(v, newRoot, newAt).value);
      forall i :: 0 <= i < |r| ==> Reconstruct(oldFiles, r[i].stream, blockSize) == read(newNodes[i].path)
  {
    var oldTree := BuildFileTree(v, oldRoot, oldAt).value;
    var newTree := BuildFileTree(v, newRoot, newAt).value;
    var oldFiles := OldFiles(oldTree, read);
    assert FitsInWords(oldFiles) by {
      forall i | 0 <= i < |oldFiles|
        ensures |oldFiles[i]| <= WORD
      {
        assert Flatten(oldTree)[i] in Flatten(oldTree);
      }
    }
    assert Run(v, oldRoot, oldAt, newRoot, newAt, read, md, blockSize) == DiffTree(v, oldFiles, newTree, read, md, blockSize);
    DiffTreeRebuilds(v, oldFiles, newTree, read, md, blockSize);
  }

  /** Corrected, each stream is written under the new file's path relative to the new root. */
  lemma RunCorrectedPaths(oldRoot: Path, oldAt: Option<Entry>, newRoot: Path, newAt: Option<Entry>,
                          read: Path -> Option<seq<byte>>, md: seq<byte> -> seq<byte>, blockSize: nat)
    requires blockSize > 0
    requires Run(Corrected, oldRoot, oldAt, newRoot, newAt, read, md, blockSize).Success?
    ensures var r := Run(Corrected, oldRoot, oldAt, newRoot, newAt, read, md, blockSize).value;
      var newNodes := Flatten(BuildFileTree(Corrected, newRoot, newAt).value);
      forall i :: 0 <= i < |r| ==> newRoot + r[i].relativePath == newNodes[i].path
  {
    var newNodes := Flatten(BuildFileTree(Corrected, newRoot, newAt).value);
    CorrectedRelativePaths(newRoot, newAt);
    forall i | 0 <= i < |newNodes|
      ensures newNodes[i].path == newRoot + newNodes[i].relativePath
    {
      assert newNodes[i] in newNodes;
    }
  }

  /** The run succeeds exactly when both roots are directories, the old tree lists something, and
      every listed file can be opened. */
  lemma RunSucceeds(v: Variant, oldRoot: Path, oldAt: Option<Entry>, newRoot: Path, newAt: Option<Entry>,
                    read: Path -> Option<seq<byte>>, md: seq<byte> -> seq<byte>, blockSize: nat)
    requires blockSize > 0
    ensures Run(v, oldRoot, oldAt, newRoot, newAt, read, md, blockSize).Success? <==>
      var oldTree := BuildFileTree(v, oldRoot, oldAt);
      var newTree := BuildFileTree(v, newRoot, newAt);
      oldTree.Some? && newTree.Some? && |Flatten(oldTree.value)| > 0 &&
      (forall m :: m in Flatten(oldTree.value) ==> read(m.path).Some?) &&
      (forall m :: m in Flatten(newTree.value) ==> read(m.path).Some?)
  {
    var oldTree := BuildFileTree(v, oldRoot, oldAt);
    var newTree := BuildFileTree(v, newRoot, newAt);
    if oldTree.Some? && newTree.Some? {
      AllListedReadable(oldTree.value, read);
      AllListedReadable(newTree.value, read);
    }
  }

  /** Every listed path can be opened exactly when none is found unreadable. */
  lemma AllListedReadable(n: Node, read: Path -> Option<seq<byte>>)
    ensures FirstUnreadable(Paths(Listing(n)), read) == |Flatten(n)| <==> forall m :: m in Flatten(n) ==> read(m.path).Some?
  {
    var paths := Paths(Listing(n));
    if FirstUnreadable(paths, read) == |Flatten(n)| {
      AllReadable(n, read);
    } else {
      var u := FirstUnreadable(paths, read);
      assert Flatten(n)[u] in Flatten(n);
    }
  }
}
