/** Concrete inputs on which the block verification as written (main_vct.cpp:286), which reads
    the new file at the old block's offset, departs from a byte comparison of the two blocks. */
module Findings {
  import opened Bytes
  import opened Results
  import opened Hashing
  import opened Index
  import opened Diff
  import opened Patch

  /** A digest under which every input collides. */
  function Colliding(x: seq<byte>): seq<byte> { [] }

  /** The old file "AAAABBBB" and the new file "AAAACCCC", in blocks of four bytes. */
  const OLD_AB: seq<byte> := [65, 65, 65, 65, 66, 66, 66, 66]
  const NEW_AC: seq<byte> := [65, 65, 65, 65, 67, 67, 67, 67]
  const AAAA: seq<byte> := [65, 65, 65, 65]
  const CCCC: seq<byte> := [67, 67, 67, 67]

  function CollidingBlockIndex(): map<string, seq<(nat, nat)>> {
    BlockIndex(AllBlockHashes(Colliding, [OLD_AB], 4))
  }

  function CollidingFileIndex(): map<string, seq<nat>> {
    FileIndex(AllDigests(Colliding, [OLD_AB]))
  }

  /** Every block of either file is filed under the empty digest, and so are both old blocks. */
  lemma CollidingIndexes()
    ensures BlockHashes(Colliding, NEW_AC, 4) == [BlockHash(0, ""), BlockHash(1, "")]
    ensures Sha256(Colliding, NEW_AC) == ""
    ensures Lookup(CollidingBlockIndex(), "") == [(0, 0), (0, 1)]
    ensures NoFileMatch([OLD_AB], Lookup(CollidingFileIndex(), ""), NEW_AC)
  {
    assert BlockCount(8, 4) == 2;
    var blocks := BlockHashes(Colliding, OLD_AB, 4);
    assert blocks == [BlockHash(0, ""), BlockHash(1, "")];
    var all := AllBlockHashes(Colliding, [OLD_AB], 4);
    assert all == [blocks];
    assert Scan(all) == Scan([]) + Locate(0, blocks);
    assert Locate(0, blocks) == [Location(0, 0, ""), Location(0, 1, "")];
    assert OLD_AB[4] != NEW_AC[4];
  }

  /** The plan for a two-block new file that no old file equals: two block records, then DONE. */
  lemma TwoBlockPlan(v: Variant, oldFiles: seq<seq<byte>>, fileIdx: map<string, seq<nat>>, blockIdx: map<string, seq<(nat, nat)>>,
                     newFile: seq<byte>, newHash: string, b0: BlockHash, b1: BlockHash, blockSize: nat)
    requires NoFileMatch(oldFiles, Lookup(fileIdx, newHash), newFile)
    ensures var plan := DiffPlan(v, oldFiles, fileIdx, blockIdx, newFile, newHash, [b0, b1], blockSize);
      |plan| == 3 && plan[2] == Done &&
      RecordFor(v, oldFiles, blockIdx, newFile, b0, blockSize, plan[0]) &&
      RecordFor(v, oldFiles, blockIdx, newFile, b1, blockSize, plan[1])
  {
    var plan := DiffPlan(v, oldFiles, fileIdx, blockIdx, newFile, newHash, [b0, b1], blockSize);
    assert RecordFor(v, oldFiles, blockIdx, newFile, [b0, b1][0], blockSize, plan[0]);
    assert RecordFor(v, oldFiles, blockIdx, newFile, [b0, b1][1], blockSize, plan[1]);
  }

  /** Read at offset 0, the two files agree; read at their own offsets, their second blocks differ
      from both old blocks. */
  lemma CollisionWindows()
    ensures BlockMatches(AsWritten, [OLD_AB], (0, 0), NEW_AC, 0, 4)
    ensures BlockMatches(AsWritten, [OLD_AB], (0, 0), NEW_AC, 1, 4)
    ensures BlockMatches(Corrected, [OLD_AB], (0, 0), NEW_AC, 0, 4)
    ensures !BlockMatches(Corrected, [OLD_AB], (0, 0), NEW_AC, 1, 4)
    ensures !BlockMatches(Corrected, [OLD_AB], (0, 1), NEW_AC, 1, 4)
    ensures ReadAt(NEW_AC, 4, 4) == CCCC
  {
    assert ReadAt(OLD_AB, 0, 4) == ReadAt(NEW_AC, 0, 4) == AAAA;
    assert ReadAt(NEW_AC, 4, 4) == CCCC;
    assert ReadAt(OLD_AB, 0, 4)[0] != ReadAt(NEW_AC, 4, 4)[0];
    assert ReadAt(OLD_AB, 4, 4)[0] != ReadAt(NEW_AC, 4, 4)[0];
  }

  /** When the first candidate under each of the two block digests verifies, both blocks are
      copies of those candidates. */
  lemma TwoBlockCopies(v: Variant, oldFiles: seq<seq<byte>>, fileIdx: map<string, seq<nat>>, blockIdx: map<string, seq<(nat, nat)>>,
                       newFile: seq<byte>, newHash: string, b0: BlockHash, b1: BlockHash, blockSize: nat, c0: (nat, nat), c1: (nat, nat))
    requires NoFileMatch(oldFiles, Lookup(fileIdx, newHash), newFile)
    requires |Lookup(blockIdx, b0.hash)| > 0 && Lookup(blockIdx, b0.hash)[0] == c0 && BlockMatches(v, oldFiles, c0, newFile, b0.index, blockSize)
    requires |Lookup(blockIdx, b1.hash)| > 0 && Lookup(blockIdx, b1.hash)[0] == c1 && BlockMatches(v, oldFiles, c1, newFile, b1.index, blockSize)
    ensures DiffPlan(v, oldFiles, fileIdx, blockIdx, newFile, newHash, [b0, b1], blockSize) == [CopyBlock(c0.0, c0.1), CopyBlock(c1.0, c1.1), Done]
  {
    TwoBlockPlan(v, oldFiles, fileIdx, blockIdx, newFile, newHash, b0, b1, blockSize);
    var plan := DiffPlan(v, oldFiles, fileIdx, blockIdx, newFile, newHash, [b0, b1], blockSize);
    RecordForFirstCandidate(v, oldFiles, blockIdx, newFile, b0, blockSize, plan[0]);
    RecordForFirstCandidate(v, oldFiles, blockIdx, newFile, b1, blockSize, plan[1]);
  }

  /** As written, both blocks of "AAAACCCC" are verified against old block 0, since both files
      are read at offset 0, where they agree. */
  lemma CollisionPlanAsWritten()
    ensures DiffPlan(AsWritten, [OLD_AB], CollidingFileIndex(), CollidingBlockIndex(), NEW_AC, Sha256(Colliding, NEW_AC),
                     BlockHashes(Colliding, NEW_AC, 4), 4) == [CopyBlock(0, 0), CopyBlock(0, 0), Done]
  {
    CollidingIndexes();
    CollisionWindows();
    TwoBlockCopies(AsWritten, [OLD_AB], CollidingFileIndex(), CollidingBlockIndex(), NEW_AC, "", BlockHash(0, ""), BlockHash(1, ""), 4, (0, 0), (0, 0));
  }

  /** Copying old block 0 twice gives "AAAAAAAA". */
  lemma CopyTwice()
    ensures WellFormed([CopyBlock(0, 0), CopyBlock(0, 0), Done], 4)
    ensures Apply([OLD_AB], [CopyBlock(0, 0), CopyBlock(0, 0), Done], 4) == Some(AAAA + AAAA)
    ensures AAAA + AAAA != NEW_AC
  {
    assert (AAAA + AAAA)[4] != NEW_AC[4];
    var plan := [CopyBlock(0, 0), CopyBlock(0, 0), Done];
    var one := [CopyBlock(0, 0)];
    assert plan[..2][..1] == one && plan[..2] == [CopyBlock(0, 0), CopyBlock(0, 0)] && one[..0] == [];
    assert ReadAt(OLD_AB, 0, 4) == AAAA;
    assert Apply([OLD_AB], [], 4) == Some([]);
    assert [] + AAAA == AAAA;
    assert Apply([OLD_AB], one, 4) == Some(AAAA);
    assert Apply([OLD_AB], plan[..2], 4) == Some(AAAA + AAAA);
    assert AAAA + AAAA + [] == AAAA + AAAA;
  }

  /** The update file the source writes for "AAAACCCC" rebuilds "AAAAAAAA". */
  lemma CollisionCopiesWrongBlock()
    ensures var stream := DiffFile([OLD_AB], CollidingFileIndex(), CollidingBlockIndex(), NEW_AC, Sha256(Colliding, NEW_AC),
                                   BlockHashes(Colliding, NEW_AC, 4), 4);
      Reconstruct([OLD_AB], stream, 4) == Some(AAAA + AAAA) && AAAA + AAAA != NEW_AC
  {
    var plan := [CopyBlock(0, 0), CopyBlock(0, 0), Done];
    CollisionPlanAsWritten();
    CopyTwice();
    DiffFileReconstructs([OLD_AB], CollidingFileIndex(), CollidingBlockIndex(), NEW_AC, Sha256(Colliding, NEW_AC),
                         BlockHashes(Colliding, NEW_AC, 4), 4, plan);
  }

  /** When the first candidate under the first digest verifies and none under the second does,
      the plan copies the first block and writes the second literally. */
  lemma CopyThenWrite(v: Variant, oldFiles: seq<seq<byte>>, fileIdx: map<string, seq<nat>>, blockIdx: map<string, seq<(nat, nat)>>,
                      newFile: seq<byte>, newHash: string, b0: BlockHash, b1: BlockHash, blockSize: nat, c0: (nat, nat))
    requires NoFileMatch(oldFiles, Lookup(fileIdx, newHash), newFile)
    requires |Lookup(blockIdx, b0.hash)| > 0 && Lookup(blockIdx, b0.hash)[0] == c0 && BlockMatches(v, oldFiles, c0, newFile, b0.index, blockSize)
    requires forall c :: c in Lookup(blockIdx, b1.hash) ==> !BlockMatches(v, oldFiles, c, newFile, b1.index, blockSize)
    ensures DiffPlan(v, oldFiles, fileIdx, blockIdx, newFile, newHash, [b0, b1], blockSize) ==
      [CopyBlock(c0.0, c0.1), WriteBlock(Window(newFile, blockSize, b1.index)), Done]
  {
    TwoBlockPlan(v, oldFiles, fileIdx, blockIdx, newFile, newHash, b0, b1, blockSize);
    var plan := DiffPlan(v, oldFiles, fileIdx, blockIdx, newFile, newHash, [b0, b1], blockSize);
    RecordForFirstCandidate(v, oldFiles, blockIdx, newFile, b0, blockSize, plan[0]);
    RecordForNoCandidate(v, oldFiles, blockIdx, newFile, b1, blockSize, plan[1]);
  }

  /** Corrected, the second block fails verification against both candidates and is written
      literally, and the plan rebuilds "AAAACCCC". */
  lemma CollisionCorrected()
    ensures var plan := DiffPlan(Corrected, [OLD_AB], CollidingFileIndex(), CollidingBlockIndex(), NEW_AC, Sha256(Colliding, NEW_AC),
                                 BlockHashes(Colliding, NEW_AC, 4), 4);
      plan == [CopyBlock(0, 0), WriteBlock(CCCC), Done] && Apply([OLD_AB], plan, 4) == Some(NEW_AC)
  {
    CollidingIndexes();
    CollisionWindows();
    CopyThenWrite(Corrected, [OLD_AB], CollidingFileIndex(), CollidingBlockIndex(), NEW_AC, "", BlockHash(0, ""), BlockHash(1, ""), 4, (0, 0));
    PlanRebuilds(Corrected, Colliding, [OLD_AB], CollidingFileIndex(), CollidingBlockIndex(), NEW_AC, "", 4);
  }

  /** The old file [1, 2] and the new file [2, 3], in blocks of one byte: the new file's first
      block is the old file's second. */
  const OLD_12: seq<byte> := [1, 2]
  const NEW_23: seq<byte> := [2, 3]

  /** Whatever the digest, only the two old blocks can be candidates. */
  lemma ShiftedCandidates(md: seq<byte> -> seq<byte>)
    ensures OnlyOldBlocks(BlockIndex(AllBlockHashes(md, [OLD_12], 1)))
  {
    var all := AllBlockHashes(md, [OLD_12], 1);
    assert BlockCount(2, 1) == 2;
    forall h, c | c in Lookup(BlockIndex(all), h)
      ensures c == (0, 0) || c == (0, 1)
    {
      CandidateInRange(md, [OLD_12], 1, h, c);
    }
  }

  lemma ShiftedBlocks(md: seq<byte> -> seq<byte>)
    ensures BlockHashes(md, NEW_23, 1) == [BlockHash(0, Sha256(md, [2])), BlockHash(1, Sha256(md, [3]))]
    ensures NEW_23 != OLD_12
  {
    assert BlockCount(2, 1) == 2;
    assert Window(NEW_23, 1, 0) == [2] && Window(NEW_23, 1, 1) == [3];
    assert OLD_12[0] != NEW_23[0];
  }

  /** As written, both candidates fail for both blocks; corrected, old block 1 matches new block 0
      and old block 0 does not. */
  lemma ShiftedWindows()
    ensures forall j: nat :: !BlockMatches(AsWritten, [OLD_12], (0, 0), NEW_23, j, 1)
    ensures forall j: nat :: !BlockMatches(AsWritten, [OLD_12], (0, 1), NEW_23, j, 1)
    ensures BlockMatches(Corrected, [OLD_12], (0, 1), NEW_23, 0, 1)
    ensures !BlockMatches(Corrected, [OLD_12], (0, 0), NEW_23, 0, 1)
  {
    assert ReadAt(OLD_12, 0, 1) == [1] && ReadAt(NEW_23, 0, 1) == [2];
    assert ReadAt(OLD_12, 1, 1) == [2] && ReadAt(NEW_23, 1, 1) == [3];
  }

  /** When no candidate verifies for either block, both are written literally. */
  lemma TwoBlockWrites(v: Variant, oldFiles: seq<seq<byte>>, fileIdx: map<string, seq<nat>>, blockIdx: map<string, seq<(nat, nat)>>,
                       newFile: seq<byte>, newHash: string, b0: BlockHash, b1: BlockHash, blockSize: nat)
    requires NoFileMatch(oldFiles, Lookup(fileIdx, newHash), newFile)
    requires forall c :: c in Lookup(blockIdx, b0.hash) ==> !BlockMatches(v, oldFiles, c, newFile, b0.index, blockSize)
    requires forall c :: c in Lookup(blockIdx, b1.hash) ==> !BlockMatches(v, oldFiles, c, newFile, b1.index, blockSize)
    ensures DiffPlan(v, oldFiles, fileIdx, blockIdx, newFile, newHash, [b0, b1], blockSize) ==
      [WriteBlock(Window(newFile, blockSize, b0.index)), WriteBlock(Window(newFile, blockSize, b1.index)), Done]
  {
    TwoBlockPlan(v, oldFiles, fileIdx, blockIdx, newFile, newHash, b0, b1, blockSize);
    var plan := DiffPlan(v, oldFiles, fileIdx, blockIdx, newFile, newHash, [b0, b1], blockSize);
    RecordForNoCandidate(v, oldFiles, blockIdx, newFile, b0, blockSize, plan[0]);
    RecordForNoCandidate(v, oldFiles, blockIdx, newFile, b1, blockSize, plan[1]);
  }

  /** Candidates drawn from the two blocks of [1, 2]. */
  ghost predicate OnlyOldBlocks(blockIdx: map<string, seq<(nat, nat)>>) {
    forall h, c :: c in Lookup(blockIdx, h) ==> c == (0, 0) || c == (0, 1)
  }

  /** As written, with any index of the old blocks, both new blocks are written literally. */
  lemma ShiftedWrites(fileIdx: map<string, seq<nat>>, blockIdx: map<string, seq<(nat, nat)>>, newHash: string, h0: string, h1: string)
    requires OnlyOldBlocks(blockIdx)
    ensures DiffPlan(AsWritten, [OLD_12], fileIdx, blockIdx, NEW_23, newHash, [BlockHash(0, h0), BlockHash(1, h1)], 1)
      == [WriteBlock([2]), WriteBlock([3]), Done]
  {
    ShiftedWindows();
    assert NoFileMatch([OLD_12], Lookup(fileIdx, newHash), NEW_23) by {
      assert OLD_12[0] != NEW_23[0];
    }
    TwoBlockWrites(AsWritten, [OLD_12], fileIdx, blockIdx, NEW_23, newHash, BlockHash(0, h0), BlockHash(1, h1), 1);
    assert ReadAt(NEW_23, 0, 1) == [2] && ReadAt(NEW_23, 1, 1) == [3];
  }

  /** Old block 1 is filed under the digest of [2]. */
  lemma ShiftedCandidate(md: seq<byte> -> seq<byte>)
    ensures (0, 1) in Lookup(BlockIndex(AllBlockHashes(md, [OLD_12], 1)), Sha256(md, [2]))
  {
    var all := AllBlockHashes(md, [OLD_12], 1);
    var h := Sha256(md, [2]);
    assert BlockCount(2, 1) == 2;
    assert Window(OLD_12, 1, 1) == [2];
    assert all[0][1] == BlockHash(1, h);
    BlockIndexMembership(all, h, 0, 1);
  }

  /** Corrected, with any index of the old blocks that files old block 1 under the first new
      block's digest, that block is copied from old block 1. */
  lemma ShiftedCopies(fileIdx: map<string, seq<nat>>, blockIdx: map<string, seq<(nat, nat)>>, newHash: string, h0: string, h1: string)
    requires OnlyOldBlocks(blockIdx) && (0, 1) in Lookup(blockIdx, h0)
    ensures DiffPlan(Corrected, [OLD_12], fileIdx, blockIdx, NEW_23, newHash, [BlockHash(0, h0), BlockHash(1, h1)], 1)[0]
      == CopyBlock(0, 1)
  {
    ShiftedWindows();
    assert NoFileMatch([OLD_12], Lookup(fileIdx, newHash), NEW_23) by {
      assert OLD_12[0] != NEW_23[0];
    }
    TwoBlockPlan(Corrected, [OLD_12], fileIdx, blockIdx, NEW_23, newHash, BlockHash(0, h0), BlockHash(1, h1), 1);
    var plan := DiffPlan(Corrected, [OLD_12], fileIdx, blockIdx, NEW_23, newHash, [BlockHash(0, h0), BlockHash(1, h1)], 1);
    RecordForOnlyMatch(Corrected, [OLD_12], blockIdx, NEW_23, BlockHash(0, h0), 1, (0, 1), plan[0]);
  }

  /** As written, under any digest, neither new block is copied: the candidate (0, 1) is checked
      against the new file at offset 1, where it holds 3, not 2. */
  lemma ShiftedBlockMissed(md: seq<byte> -> seq<byte>, fileIdx: map<string, seq<nat>>)
    ensures var blockIdx := BlockIndex(AllBlockHashes(md, [OLD_12], 1));
      DiffPlan(AsWritten, [OLD_12], fileIdx, blockIdx, NEW_23, Sha256(md, NEW_23), BlockHashes(md, NEW_23, 1), 1)
        == [WriteBlock([2]), WriteBlock([3]), Done]
  {
    ShiftedBlocks(md);
    ShiftedCandidates(md);
    ShiftedWrites(fileIdx, BlockIndex(AllBlockHashes(md, [OLD_12], 1)), Sha256(md, NEW_23), Sha256(md, [2]), Sha256(md, [3]));
  }

  /** Corrected, under any digest, the first new block is copied from old block 1. */
  lemma ShiftedBlockFound(md: seq<byte> -> seq<byte>, fileIdx: map<string, seq<nat>>)
    ensures var blockIdx := BlockIndex(AllBlockHashes(md, [OLD_12], 1));
      DiffPlan(Corrected, [OLD_12], fileIdx, blockIdx, NEW_23, Sha256(md, NEW_23), BlockHashes(md, NEW_23, 1), 1)[0]
        == CopyBlock(0, 1)
  {
    ShiftedBlocks(md);
    ShiftedCandidates(md);
    ShiftedCandidate(md);
    ShiftedCopies(fileIdx, BlockIndex(AllBlockHashes(md, [OLD_12], 1)), Sha256(md, NEW_23), Sha256(md, [2]), Sha256(md, [3]));
  }
}
