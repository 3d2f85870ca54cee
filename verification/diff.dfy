/** The per-file diff: whole-file matching against the old files, else block-by-block matching,
    every digest hit confirmed by a byte comparison, serialised as an instruction stream. */
module Diff {
  import opened Bytes
  import opened Results
  import opened Wire
  import opened Hashing
  import opened Index
  import opened Compare

  datatype Instr = CopyFile(id: nat) | CopyBlock(file: nat, block: nat) | WriteBlock(data: seq<byte>) | Done

  /** The bytes written for one instruction: opcode, then its fields as `size_t` values or the
      literal block. */
  function Record(instr: Instr): seq<byte> {
    match instr
    case CopyFile(id) => [COPY_FILE] + WriteSize(id)
    case CopyBlock(f, k) => [COPY_BLOCK] + WriteSize(f) + WriteSize(k)
    case WriteBlock(data) => [WRITE_BLOCK] + data
    case Done => [DONE]
  }

  function Serialize(plan: seq<Instr>): seq<byte> {
    if |plan| == 0 then [] else Record(plan[0]) + Serialize(plan[1..])
  }

  /** Position of the first element of `s` satisfying `p`, or `|s|` when none does. */
  function FirstWhere<T>(s: seq<T>, p: T -> bool): (i: nat)
    ensures i <= |s|
    ensures forall j :: 0 <= j < i ==> !p(s[j])
    ensures i < |s| ==> p(s[i])
  {
    if |s| == 0 then 0 else if p(s[0]) then 0 else 1 + FirstWhere(s[1..], p)
  }

  /** Old file `c` passes `validateEqual` against the new file (see `Compare.ValidateEqual`).
      An id outside the old list, which an index built from that list never holds, fails. */
  predicate FileMatches(oldFiles: seq<seq<byte>>, c: nat, newFile: seq<byte>) {
    c < |oldFiles| && oldFiles[c] == newFile
  }

  /** Candidate `(f, k)` for the new file's block `newIndex` passes verification. As written
      (main_vct.cpp:286), both files are read at the OLD block's offset `k * blockSize`; corrected,
      the new file is read at its own block's offset. */
  predicate BlockMatches(v: Variant, oldFiles: seq<seq<byte>>, c: (nat, nat), newFile: seq<byte>, newIndex: nat, blockSize: nat) {
    c.0 < |oldFiles| &&
    match v
    case AsWritten => ValidateBlockEqual(Some(oldFiles[c.0]), Some(newFile), c.1 * blockSize, blockSize)
    case Corrected => Window(oldFiles[c.0], blockSize, c.1) == Window(newFile, blockSize, newIndex)
  }

  /** The record for one block of the new file: the first verified candidate under the block's
      digest, else the block's bytes read from the new file. */
  function BlockRecord(v: Variant, oldFiles: seq<seq<byte>>, blockIdx: map<string, seq<(nat, nat)>>,
                       newFile: seq<byte>, b: BlockHash, blockSize: nat): Instr
  {
    var cands := Lookup(blockIdx, b.hash);
    var p := FirstWhere(cands, (c: (nat, nat)) => BlockMatches(v, oldFiles, c, newFile, b.index, blockSize));
    if p < |cands| then CopyBlock(cands[p].0, cands[p].1)
    else WriteBlock(Window(newFile, blockSize, b.index))
  }

  /** `pos` is the first candidate of `cands` that verifies as a whole-file copy. */
  predicate FirstFileMatch(oldFiles: seq<seq<byte>>, cands: seq<nat>, newFile: seq<byte>, pos: int) {
    0 <= pos < |cands| && FileMatches(oldFiles, cands[pos], newFile) &&
    forall q :: 0 <= q < pos ==> !FileMatches(oldFiles, cands[q], newFile)
  }

  predicate NoFileMatch(oldFiles: seq<seq<byte>>, cands: seq<nat>, newFile: seq<byte>) {
    forall q :: 0 <= q < |cands| ==> !FileMatches(oldFiles, cands[q], newFile)
  }

  /** What the record for new block `b` must be: a copy of the first candidate under its digest that
      verifies, or, when none verifies, the literal bytes of the new file at the block's offset. */
  predicate RecordFor(v: Variant, oldFiles: seq<seq<byte>>, blockIdx: map<string, seq<(nat, nat)>>,
                      newFile: seq<byte>, b: BlockHash, blockSize: nat, instr: Instr)
  {
    var cands := Lookup(blockIdx, b.hash);
    match instr
    case CopyBlock(f, k) =>
      exists p :: 0 <= p < |cands| && cands[p] == (f, k) && BlockMatches(v, oldFiles, cands[p], newFile, b.index, blockSize) &&
        forall q :: 0 <= q < p ==> !BlockMatches(v, oldFiles, cands[q], newFile, b.index, blockSize)
    case WriteBlock(data) =>
      (forall q :: 0 <= q < |cands| ==> !BlockMatches(v, oldFiles, cands[q], newFile, b.index, blockSize)) &&
      data == Window(newFile, blockSize, b.index)
    case _ => false
  }

  /** The instructions for one new file (the body of the loop at main_vct.cpp:248-320). */
  function DiffPlan(v: Variant, oldFiles: seq<seq<byte>>, fileIdx: map<string, seq<nat>>,
                    blockIdx: map<string, seq<(nat, nat)>>, newFile: seq<byte>, newHash: string,
                    newBlocks: seq<BlockHash>, blockSize: nat): (r: seq<Instr>)
    ensures forall p :: FirstFileMatch(oldFiles, Lookup(fileIdx, newHash), newFile, p) ==>
      r == [CopyFile(Lookup(fileIdx, newHash)[p]), Done]
    ensures NoFileMatch(oldFiles, Lookup(fileIdx, newHash), newFile) ==>
      |r| == |newBlocks| + 1 &&
      forall j :: 0 <= j < |newBlocks| ==> RecordFor(v, oldFiles, blockIdx, newFile, newBlocks[j], blockSize, r[j])
    ensures |r| > 0 && r[|r| - 1] == Done && forall j :: 0 <= j < |r| - 1 ==> !r[j].Done?
  {
    var cands := Lookup(fileIdx, newHash);
    var p := FirstWhere(cands, (c: nat) => FileMatches(oldFiles, c, newFile));
    if p < |cands| then
      [CopyFile(cands[p]), Done]
    else
      var records := seq(|newBlocks|, (j: int) requires 0 <= j < |newBlocks| =>
        BlockRecord(v, oldFiles, blockIdx, newFile, newBlocks[j], blockSize));
      assert forall j :: 0 <= j < |newBlocks| ==> RecordFor(v, oldFiles, blockIdx, newFile, newBlocks[j], blockSize, records[j]) by {
        forall j | 0 <= j < |newBlocks|
          ensures RecordFor(v, oldFiles, blockIdx, newFile, newBlocks[j], blockSize, records[j])
        {
          BlockRecordIsRecordFor(v, oldFiles, blockIdx, newFile, newBlocks[j], blockSize);
        }
      }
      records + [Done]
  }

  lemma BlockRecordIsRecordFor(v: Variant, oldFiles: seq<seq<byte>>, blockIdx: map<string, seq<(nat, nat)>>,
                               newFile: seq<byte>, b: BlockHash, blockSize: nat)
    ensures RecordFor(v, oldFiles, blockIdx, newFile, b, blockSize, BlockRecord(v, oldFiles, blockIdx, newFile, b, blockSize))
  {
    var cands := Lookup(blockIdx, b.hash);
    var p := FirstWhere(cands, (c: (nat, nat)) => BlockMatches(v, oldFiles, c, newFile, b.index, blockSize));
    if p < |cands| {
      assert cands[p] == (cands[p].0, cands[p].1);
    }
  }

  /** When the first candidate under a block's digest verifies, that candidate is the record. */
  lemma RecordForFirstCandidate(v: Variant, oldFiles: seq<seq<byte>>, blockIdx: map<string, seq<(nat, nat)>>,
                                newFile: seq<byte>, b: BlockHash, blockSize: nat, instr: Instr)
    requires |Lookup(blockIdx, b.hash)| > 0
    requires BlockMatches(v, oldFiles, Lookup(blockIdx, b.hash)[0], newFile, b.index, blockSize)
    requires RecordFor(v, oldFiles, blockIdx, newFile, b, blockSize, instr)
    ensures instr == CopyBlock(Lookup(blockIdx, b.hash)[0].0, Lookup(blockIdx, b.hash)[0].1)
  {
    if instr.CopyBlock? {
      var cands := Lookup(blockIdx, b.hash);
      var p :| 0 <= p < |cands| && cands[p] == (instr.file, instr.block) &&
        forall q :: 0 <= q < p ==> !BlockMatches(v, oldFiles, cands[q], newFile, b.index, blockSize);
      assert p == 0;
    }
  }

  /** When exactly one candidate under a block's digest verifies, that candidate is the record. */
  lemma RecordForOnlyMatch(v: Variant, oldFiles: seq<seq<byte>>, blockIdx: map<string, seq<(nat, nat)>>,
                           newFile: seq<byte>, b: BlockHash, blockSize: nat, c: (nat, nat), instr: Instr)
    requires c in Lookup(blockIdx, b.hash) && BlockMatches(v, oldFiles, c, newFile, b.index, blockSize)
    requires forall d :: d in Lookup(blockIdx, b.hash) && BlockMatches(v, oldFiles, d, newFile, b.index, blockSize) ==> d == c
    requires RecordFor(v, oldFiles, blockIdx, newFile, b, blockSize, instr)
    ensures instr == CopyBlock(c.0, c.1)
  {
    var cands := Lookup(blockIdx, b.hash);
    if instr.CopyBlock? {
      var p :| 0 <= p < |cands| && cands[p] == (instr.file, instr.block) && BlockMatches(v, oldFiles, cands[p], newFile, b.index, blockSize);
    }
  }

  /** When no candidate verifies, the record is the block's literal bytes. */
  lemma RecordForNoCandidate(v: Variant, oldFiles: seq<seq<byte>>, blockIdx: map<string, seq<(nat, nat)>>,
                             newFile: seq<byte>, b: BlockHash, blockSize: nat, instr: Instr)
    requires forall c :: c in Lookup(blockIdx, b.hash) ==> !BlockMatches(v, oldFiles, c, newFile, b.index, blockSize)
    requires RecordFor(v, oldFiles, blockIdx, newFile, b, blockSize, instr)
    ensures instr == WriteBlock(Window(newFile, blockSize, b.index))
  {
  }

  /** A digest absent from an index has no candidates: a new file whose digest no old file has
      goes block by block, and a block whose digest no old block has is written literally. */
  lemma AbsentDigest(v: Variant, oldFiles: seq<seq<byte>>, fileIdx: map<string, seq<nat>>,
                     blockIdx: map<string, seq<(nat, nat)>>, newFile: seq<byte>, newHash: string,
                     newBlocks: seq<BlockHash>, blockSize: nat)
    requires newHash !in fileIdx
    ensures var r := DiffPlan(v, oldFiles, fileIdx, blockIdx, newFile, newHash, newBlocks, blockSize);
      |r| == |newBlocks| + 1 &&
      forall j :: 0 <= j < |newBlocks| && newBlocks[j].hash !in blockIdx ==>
        r[j] == WriteBlock(Window(newFile, blockSize, newBlocks[j].index))
  {
    var r := DiffPlan(v, oldFiles, fileIdx, blockIdx, newFile, newHash, newBlocks, blockSize);
    assert NoFileMatch(oldFiles, Lookup(fileIdx, newHash), newFile);
    forall j | 0 <= j < |newBlocks| && newBlocks[j].hash !in blockIdx
      ensures r[j] == WriteBlock(Window(newFile, blockSize, newBlocks[j].index))
    {
      RecordForNoCandidate(v, oldFiles, blockIdx, newFile, newBlocks[j], blockSize, r[j]);
    }
  }

  /** What the as-written check guarantees of a copied block `(f, k)`: the old and the new file
      agree at the OLD block's offset. When `k` is the new block's own index, that is the new
      block itself. */
  lemma AsWrittenCopyGuarantee(oldFiles: seq<seq<byte>>, blockIdx: map<string, seq<(nat, nat)>>,
                               newFile: seq<byte>, b: BlockHash, blockSize: nat, instr: Instr)
    requires RecordFor(AsWritten, oldFiles, blockIdx, newFile, b, blockSize, instr) && instr.CopyBlock?
    ensures instr.file < |oldFiles|
    ensures Window(oldFiles[instr.file], blockSize, instr.block) == Window(newFile, blockSize, instr.block)
    ensures instr.block == b.index ==>
      Window(oldFiles[instr.file], blockSize, instr.block) == Window(newFile, blockSize, b.index)
  {
    var cands := Lookup(blockIdx, b.hash);
    var p :| 0 <= p < |cands| && cands[p] == (instr.file, instr.block) &&
      BlockMatches(AsWritten, oldFiles, cands[p], newFile, b.index, blockSize);
  }

  /** The update file for one new file, as the source writes it. */
  function DiffFile(oldFiles: seq<seq<byte>>, fileIdx: map<string, seq<nat>>, blockIdx: map<string, seq<(nat, nat)>>,
                    newFile: seq<byte>, newHash: string, newBlocks: seq<BlockHash>, blockSize: nat): (r: seq<byte>)
    ensures forall p :: FirstFileMatch(oldFiles, Lookup(fileIdx, newHash), newFile, p) ==>
      r == [COPY_FILE] + WriteSize(Lookup(fileIdx, newHash)[p]) + [DONE]
    ensures |r| > 0 && r[|r| - 1] == DONE
  {
    var plan := DiffPlan(AsWritten, oldFiles, fileIdx, blockIdx, newFile, newHash, newBlocks, blockSize);
    SerializeEndsWithDone(plan);
    Serialize(plan)
  }

  /** The update file with block verification reading the new file at its own block's offset. */
  function DiffFileCorrected(oldFiles: seq<seq<byte>>, fileIdx: map<string, seq<nat>>, blockIdx: map<string, seq<(nat, nat)>>,
                             newFile: seq<byte>, newHash: string, newBlocks: seq<BlockHash>, blockSize: nat): (r: seq<byte>)
    ensures forall p :: FirstFileMatch(oldFiles, Lookup(fileIdx, newHash), newFile, p) ==>
      r == [COPY_FILE] + WriteSize(Lookup(fileIdx, newHash)[p]) + [DONE]
    ensures |r| > 0 && r[|r| - 1] == DONE
  {
    var plan := DiffPlan(Corrected, oldFiles, fileIdx, blockIdx, newFile, newHash, newBlocks, blockSize);
    SerializeEndsWithDone(plan);
    Serialize(plan)
  }

  lemma {:induction false} SerializeEndsWithDone(plan: seq<Instr>)
    requires |plan| > 0 && plan[|plan| - 1] == Done
    ensures |Serialize(plan)| > 0 && Serialize(plan)[|Serialize(plan)| - 1] == DONE
    ensures |plan| == 2 && plan[0].CopyFile? ==> Serialize(plan) == [COPY_FILE] + WriteSize(plan[0].id) + [DONE]
  {
    if |plan| > 1 {
      SerializeEndsWithDone(plan[1..]);
      if |plan| == 2 {
        assert plan[1..][1..] == [];
      }
    }
  }
}
