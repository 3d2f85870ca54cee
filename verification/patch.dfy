/** The receiving side of the format: reading an instruction stream back and applying it to the
    old files. The source has no such reader; it is the reference against which the diff is
    proved to reconstruct each new file. */
module Patch {
  import opened Bytes
  import opened Results
  import opened Wire
  import opened Hashing
  import opened Index
  import opened Diff

  function Prepend(instr: Instr, rest: Option<seq<Instr>>): Option<seq<Instr>> {
    match rest
    case None => None
    case Some(tail) => Some([instr] + tail)
  }

  /** Reads records until the final DONE. A WRITE_BLOCK payload is `blockSize` bytes when more
      than that follows, and otherwise everything but the closing DONE. */
  function Decode(s: seq<byte>, blockSize: nat): Option<seq<Instr>>
    decreases |s|
  {
    if |s| == 0 then None
    else if s[0] == DONE then (if |s| == 1 then Some([Done]) else None)
    else if s[0] == COPY_FILE then
      if |s| < 1 + SIZE_BYTES then None
      else Prepend(CopyFile(ReadSize(s[1..])), Decode(s[1 + SIZE_BYTES..], blockSize))
    else if s[0] == COPY_BLOCK then
      if |s| < 1 + 2 * SIZE_BYTES then None
      else Prepend(CopyBlock(ReadSize(s[1..]), ReadSize(s[1 + SIZE_BYTES..])), Decode(s[1 + 2 * SIZE_BYTES..], blockSize))
    else if s[0] == WRITE_BLOCK then
      if |s| < 2 then None
      else
        var n := if |s| - 1 > blockSize then blockSize else |s| - 2;
        Prepend(WriteBlock(s[1..1 + n]), Decode(s[1 + n..], blockSize))
    else None
  }

  /** A record that can stand before position `j + 1` of a plan: its fields fit in 64 bits, and a
      literal block is at most `blockSize` long, and exactly that long unless DONE follows it. */
  predicate RecordFits(instr: Instr, blockSize: nat, doneFollows: bool) {
    match instr
    case CopyFile(id) => id < WORD
    case CopyBlock(f, k) => f < WORD && k < WORD
    case WriteBlock(data) => |data| <= blockSize && (!doneFollows ==> |data| == blockSize)
    case Done => false
  }

  /** Records followed by one closing DONE, each record fitting the wire format. */
  predicate WellFormed(plan: seq<Instr>, blockSize: nat) {
    |plan| > 0 && plan[|plan| - 1] == Done &&
    forall j :: 0 <= j < |plan| - 1 ==> RecordFits(plan[j], blockSize, j == |plan| - 2)
  }

  /** Reading one record in front of the rest of a stream. */
  lemma DecodeRecord(instr: Instr, rest: seq<byte>, blockSize: nat, doneFollows: bool)
    requires RecordFits(instr, blockSize, doneFollows)
    requires |rest| > 0 && (doneFollows ==> rest == [DONE])
    ensures Decode(Record(instr) + rest, blockSize) == Prepend(instr, Decode(rest, blockSize))
  {
    match instr
    case CopyFile(id) => DecodeCopyFile(id, rest, blockSize);
    case CopyBlock(f, k) => DecodeCopyBlock(f, k, rest, blockSize);
    case WriteBlock(data) => DecodeWriteBlock(data, rest, blockSize, doneFollows);
  }

  lemma DecodeCopyFile(id: nat, rest: seq<byte>, blockSize: nat)
    requires id < WORD
    ensures Decode(Record(CopyFile(id)) + rest, blockSize) == Prepend(CopyFile(id), Decode(rest, blockSize))
  {
    var s := Record(CopyFile(id)) + rest;
    assert s[1..] == WriteSize(id) + rest;
    ReadSizePrefix(id, rest);
    assert s[1 + SIZE_BYTES..] == rest;
  }

  lemma DecodeCopyBlock(f: nat, k: nat, rest: seq<byte>, blockSize: nat)
    requires f < WORD && k < WORD
    ensures Decode(Record(CopyBlock(f, k)) + rest, blockSize) == Prepend(CopyBlock(f, k), Decode(rest, blockSize))
  {
    var s := Record(CopyBlock(f, k)) + rest;
    assert s[1..] == WriteSize(f) + (WriteSize(k) + rest);
    ReadSizePrefix(f, WriteSize(k) + rest);
    assert s[1 + SIZE_BYTES..] == WriteSize(k) + rest;
    ReadSizePrefix(k, rest);
    assert s[1 + 2 * SIZE_BYTES..] == rest;
  }

  lemma DecodeWriteBlock(data: seq<byte>, rest: seq<byte>, blockSize: nat, doneFollows: bool)
    requires |data| <= blockSize && (!doneFollows ==> |data| == blockSize)
    requires |rest| > 0 && (doneFollows ==> rest == [DONE])
    ensures Decode(Record(WriteBlock(data)) + rest, blockSize) == Prepend(WriteBlock(data), Decode(rest, blockSize))
  {
    var s := Record(WriteBlock(data)) + rest;
    assert s[1..1 + |data|] == data;
    assert s[1 + |data|..] == rest;
  }

  /** Reading a serialised well-formed plan gives back the plan. */
  lemma {:induction false} DecodeSerialize(plan: seq<Instr>, blockSize: nat)
    requires WellFormed(plan, blockSize)
    ensures Decode(Serialize(plan), blockSize) == Some(plan)
    decreases |plan|
  {
    if |plan| == 1 {
      assert plan == [Done];
      assert Serialize(plan) == [DONE];
    } else {
      var tail := plan[1..];
      assert WellFormed(tail, blockSize) by {
        forall j | 0 <= j < |tail| - 1
          ensures RecordFits(tail[j], blockSize, j == |tail| - 2)
        {
          assert tail[j] == plan[j + 1];
        }
      }
      DecodeSerialize(tail, blockSize);
      var rest := Serialize(tail);
      assert |rest| > 0 && (|plan| == 2 ==> rest == [DONE]) by {
        assert rest == Record(tail[0]) + Serialize(tail[1..]);
        if |plan| == 2 {
          assert tail[1..] == [];
        }
      }
      assert RecordFits(plan[0], blockSize, 0 == |plan| - 2);
      DecodeRecord(plan[0], rest, blockSize, |plan| == 2);
      assert [plan[0]] + tail == plan;
    }
  }

  /** The bytes one instruction contributes: a whole old file, a block of an old file at the
      block's offset (clamped to its end), or the literal bytes. */
  function Payload(oldFiles: seq<seq<byte>>, instr: Instr, blockSize: nat): Option<seq<byte>> {
    match instr
    case CopyFile(id) => if id < |oldFiles| then Some(oldFiles[id]) else None
    case CopyBlock(f, k) => if f < |oldFiles| then Some(Window(oldFiles[f], blockSize, k)) else None
    case WriteBlock(data) => Some(data)
    case Done => Some([])
  }

  function Apply(oldFiles: seq<seq<byte>>, plan: seq<Instr>, blockSize: nat): Option<seq<byte>>
    decreases |plan|
  {
    if |plan| == 0 then Some([])
    else
      match Apply(oldFiles, plan[..|plan| - 1], blockSize)
      case None => None
      case Some(prefix) =>
        match Payload(oldFiles, plan[|plan| - 1], blockSize)
        case None => None
        case Some(bytes) => Some(prefix + bytes)
  }

  /** Rebuilds a file from its update file and the old files. */
  function Reconstruct(oldFiles: seq<seq<byte>>, stream: seq<byte>, blockSize: nat): Option<seq<byte>> {
    match Decode(stream, blockSize)
    case None => None
    case Some(plan) => Apply(oldFiles, plan, blockSize)
  }

  /** Reconstructing from a serialised well-formed plan applies the plan itself. */
  lemma ReconstructSerialized(oldFiles: seq<seq<byte>>, plan: seq<Instr>, blockSize: nat)
    requires WellFormed(plan, blockSize)
    ensures Reconstruct(oldFiles, Serialize(plan), blockSize) == Apply(oldFiles, plan, blockSize)
  {
    DecodeSerialize(plan, blockSize);
  }

  /** The update file the source writes for a plan it computed is read back into that plan. */
  lemma DiffFileReconstructs(oldFiles: seq<seq<byte>>, fileIdx: map<string, seq<nat>>, blockIdx: map<string, seq<(nat, nat)>>,
                             newFile: seq<byte>, newHash: string, newBlocks: seq<BlockHash>, blockSize: nat, plan: seq<Instr>)
    requires DiffPlan(AsWritten, oldFiles, fileIdx, blockIdx, newFile, newHash, newBlocks, blockSize) == plan
    requires WellFormed(plan, blockSize)
    ensures Reconstruct(oldFiles, DiffFile(oldFiles, fileIdx, blockIdx, newFile, newHash, newBlocks, blockSize), blockSize)
      == Apply(oldFiles, plan, blockSize)
  {
    ReconstructSerialized(oldFiles, plan, blockSize);
  }

  /** Records whose payloads are the new file's windows, in order, rebuild the file's prefix. */
  lemma {:induction false} ApplyWindows(oldFiles: seq<seq<byte>>, records: seq<Instr>, newFile: seq<byte>, blockSize: nat)
    requires blockSize > 0
    requires forall j :: 0 <= j < |records| ==> Payload(oldFiles, records[j], blockSize) == Some(Window(newFile, blockSize, j))
    ensures Apply(oldFiles, records, blockSize) == Some(Joined(newFile, blockSize, |records|))
    decreases |records|
  {
    if |records| > 0 {
      var n := |records| - 1;
      ApplyWindows(oldFiles, records[..n], newFile, blockSize);
    }
  }

  /** When the as-written verification may be trusted: the message digest has no collisions and
      the block index is the one built from the old files' block records. Corrected verification
      needs neither. */
  ghost predicate Trustworthy(v: Variant, md: seq<byte> -> seq<byte>, oldFiles: seq<seq<byte>>,
                              blockIdx: map<string, seq<(nat, nat)>>, blockSize: nat)
    requires blockSize > 0
  {
    v == Corrected || (Injective(md) && blockIdx == BlockIndex(AllBlockHashes(md, oldFiles, blockSize)))
  }

  /** A block record chosen for block `j` of the new file supplies exactly that block's bytes. */
  lemma RecordPayload(v: Variant, md: seq<byte> -> seq<byte>, oldFiles: seq<seq<byte>>,
                      blockIdx: map<string, seq<(nat, nat)>>, newFile: seq<byte>, blockSize: nat, j: nat, instr: Instr)
    requires blockSize > 0 && j < BlockCount(|newFile|, blockSize)
    requires Trustworthy(v, md, oldFiles, blockIdx, blockSize)
    requires RecordFor(v, oldFiles, blockIdx, newFile, BlockHashes(md, newFile, blockSize)[j], blockSize, instr)
    ensures Payload(oldFiles, instr, blockSize) == Some(Window(newFile, blockSize, j))
    ensures instr.CopyBlock? ==> instr.file < |oldFiles| && instr.block < |oldFiles[instr.file]|
  {
    var b := BlockHashes(md, newFile, blockSize)[j];
    if instr.CopyBlock? {
      var f, k := instr.file, instr.block;
      var cands := Lookup(blockIdx, b.hash);
      var p :| 0 <= p < |cands| && cands[p] == (f, k) && BlockMatches(v, oldFiles, cands[p], newFile, b.index, blockSize);
      if v == AsWritten {
        VerifiedCandidate(md, oldFiles, newFile, blockSize, j, f, k);
      }
      var w := Window(oldFiles[f], blockSize, k);
      assert w == Window(newFile, blockSize, j);
      WindowSizes(newFile, blockSize, j);
      assert k * blockSize < |oldFiles[f]|;
      BlockInFile(k, blockSize, |oldFiles[f]|);
    }
  }

  /** As written, a candidate drawn from the index of the old files' block records whose window
      verifies has, under a collision-free digest, the same bytes as the new block. */
  lemma VerifiedCandidate(md: seq<byte> -> seq<byte>, oldFiles: seq<seq<byte>>, newFile: seq<byte>, blockSize: nat, j: nat, f: nat, k: nat)
    requires blockSize > 0 && j < BlockCount(|newFile|, blockSize) && f < |oldFiles|
    requires Injective(md)
    requires (f, k) in Lookup(BlockIndex(AllBlockHashes(md, oldFiles, blockSize)), Sha256(md, Window(newFile, blockSize, j)))
    ensures Window(oldFiles[f], blockSize, k) == Window(newFile, blockSize, j)
  {
    var all := AllBlockHashes(md, oldFiles, blockSize);
    var h := Sha256(md, Window(newFile, blockSize, j));
    BlockIndexMembership(all, h, f, k);
    var m :| 0 <= m < |all[f]| && all[f][m] == BlockHash(k, h);
    assert Sha256(md, Window(oldFiles[f], blockSize, k)) == h;
    Sha256Injective(md, Window(oldFiles[f], blockSize, k), Window(newFile, blockSize, j));
  }

  /** A block whose offset lies inside a file has an index below the file's length. */
  lemma BlockInFile(k: nat, blockSize: nat, len: nat)
    requires blockSize > 0 && k * blockSize < len
    ensures k < len
  {
    MulLe(1, blockSize, k);
  }

  /** A plan of block records, one per block of the new file, then DONE, rebuilds the file. */
  lemma RecordsRebuild(v: Variant, md: seq<byte> -> seq<byte>, oldFiles: seq<seq<byte>>,
                       blockIdx: map<string, seq<(nat, nat)>>, newFile: seq<byte>, blockSize: nat, plan: seq<Instr>)
    requires blockSize > 0
    requires Trustworthy(v, md, oldFiles, blockIdx, blockSize)
    requires |plan| == BlockCount(|newFile|, blockSize) + 1 && plan[|plan| - 1] == Done
    requires forall j :: 0 <= j < |plan| - 1 ==>
      RecordFor(v, oldFiles, blockIdx, newFile, BlockHashes(md, newFile, blockSize)[j], blockSize, plan[j])
    ensures Apply(oldFiles, plan, blockSize) == Some(newFile)
  {
    var records := plan[..|plan| - 1];
    forall j | 0 <= j < |records|
      ensures Payload(oldFiles, records[j], blockSize) == Some(Window(newFile, blockSize, j))
    {
      RecordPayload(v, md, oldFiles, blockIdx, newFile, blockSize, j, records[j]);
    }
    ApplyWindows(oldFiles, records, newFile, blockSize);
    WindowsCover(newFile, blockSize);
    assert newFile + [] == newFile;
  }

  /** Applying the plan for a new file to the old files rebuilds the new file, whenever the
      verification used can be trusted. */
  lemma PlanRebuilds(v: Variant, md: seq<byte> -> seq<byte>, oldFiles: seq<seq<byte>>, fileIdx: map<string, seq<nat>>,
                     blockIdx: map<string, seq<(nat, nat)>>, newFile: seq<byte>, newHash: string, blockSize: nat)
    requires blockSize > 0
    requires Trustworthy(v, md, oldFiles, blockIdx, blockSize)
    ensures var plan := DiffPlan(v, oldFiles, fileIdx, blockIdx, newFile, newHash, BlockHashes(md, newFile, blockSize), blockSize);
      Apply(oldFiles, plan, blockSize) == Some(newFile)
  {
    var newBlocks := BlockHashes(md, newFile, blockSize);
    var plan := DiffPlan(v, oldFiles, fileIdx, blockIdx, newFile, newHash, newBlocks, blockSize);
    var cands := Lookup(fileIdx, newHash);
    var p := FirstWhere(cands, (c: nat) => FileMatches(oldFiles, c, newFile));
    if p < |cands| {
      assert FirstFileMatch(oldFiles, cands, newFile, p);
      CopyFileRebuilds(oldFiles, cands[p], newFile, blockSize, plan);
    } else {
      assert NoFileMatch(oldFiles, cands, newFile);
      RecordsRebuild(v, md, oldFiles, blockIdx, newFile, blockSize, plan);
    }
  }

  lemma CopyFileRebuilds(oldFiles: seq<seq<byte>>, id: nat, newFile: seq<byte>, blockSize: nat, plan: seq<Instr>)
    requires FileMatches(oldFiles, id, newFile) && plan == [CopyFile(id), Done]
    ensures Apply(oldFiles, plan, blockSize) == Some(newFile)
  {
    var first := [CopyFile(id)];
    assert plan[..1] == first && first[..0] == [];
    assert Apply(oldFiles, first[..0], blockSize) == Some([]);
    assert Payload(oldFiles, CopyFile(id), blockSize) == Some(newFile);
    assert [] + newFile == newFile;
    assert Apply(oldFiles, first, blockSize) == Some(newFile);
    assert Payload(oldFiles, Done, blockSize) == Some([]);
    assert newFile + [] == newFile;
  }

  /** Every old file and every id fits in a 64-bit `size_t`. */
  predicate FitsInWords(oldFiles: seq<seq<byte>>) {
    |oldFiles| <= WORD && forall i :: 0 <= i < |oldFiles| ==> |oldFiles[i]| <= WORD
  }

  /** A candidate under any digest names an old file and one of its blocks. */
  lemma CandidateInRange(md: seq<byte> -> seq<byte>, oldFiles: seq<seq<byte>>, blockSize: nat, h: string, c: (nat, nat))
    requires blockSize > 0
    requires c in Lookup(BlockIndex(AllBlockHashes(md, oldFiles, blockSize)), h)
    ensures c.0 < |oldFiles| && c.1 < BlockCount(|oldFiles[c.0]|, blockSize)
  {
    var all := AllBlockHashes(md, oldFiles, blockSize);
    BlockIndexMembership(all, h, c.0, c.1);
    var j :| 0 <= j < |all[c.0]| && all[c.0][j] == BlockHash(c.1, h);
  }

  /** A copied block names an old file and one of its blocks, so both fields fit in a `size_t`:
      as written because the candidate comes from the old files' own block index, corrected
      because the old window equals a non-empty new one. */
  lemma CopyFits(v: Variant, md: seq<byte> -> seq<byte>, oldFiles: seq<seq<byte>>, blockIdx: map<string, seq<(nat, nat)>>,
                 newFile: seq<byte>, b: BlockHash, blockSize: nat, instr: Instr)
    requires blockSize > 0 && FitsInWords(oldFiles)
    requires v == Corrected || blockIdx == BlockIndex(AllBlockHashes(md, oldFiles, blockSize))
    requires b.index < BlockCount(|newFile|, blockSize)
    requires RecordFor(v, oldFiles, blockIdx, newFile, b, blockSize, instr) && instr.CopyBlock?
    ensures instr.file < |oldFiles| && instr.block < BlockCount(|oldFiles[instr.file]|, blockSize)
    ensures instr.file < WORD && instr.block < WORD
  {
    var cands := Lookup(blockIdx, b.hash);
    var p :| 0 <= p < |cands| && cands[p] == (instr.file, instr.block) &&
      BlockMatches(v, oldFiles, cands[p], newFile, b.index, blockSize);
    if v == Corrected {
      WindowSizes(newFile, blockSize, b.index);
      WindowInside(oldFiles[instr.file], blockSize, instr.block);
    } else {
      CandidateInRange(md, oldFiles, blockSize, b.hash, cands[p]);
    }
    BlockCountAtMost(|oldFiles[instr.file]|, blockSize);
  }

  /** The plan for a new file can be written to the wire and read back: as written under any
      digest, given the old files' own block index; corrected under any index. */
  lemma PlanWellFormed(v: Variant, md: seq<byte> -> seq<byte>, oldFiles: seq<seq<byte>>, fileIdx: map<string, seq<nat>>,
                       blockIdx: map<string, seq<(nat, nat)>>, newFile: seq<byte>, newHash: string, blockSize: nat)
    requires blockSize > 0 && FitsInWords(oldFiles)
    requires v == Corrected || blockIdx == BlockIndex(AllBlockHashes(md, oldFiles, blockSize))
    ensures WellFormed(DiffPlan(v, oldFiles, fileIdx, blockIdx, newFile, newHash, BlockHashes(md, newFile, blockSize), blockSize), blockSize)
  {
    var newBlocks := BlockHashes(md, newFile, blockSize);
    var plan := DiffPlan(v, oldFiles, fileIdx, blockIdx, newFile, newHash, newBlocks, blockSize);
    var cands := Lookup(fileIdx, newHash);
    var p := FirstWhere(cands, (c: nat) => FileMatches(oldFiles, c, newFile));
    if p < |cands| {
      assert FirstFileMatch(oldFiles, cands, newFile, p);
    } else {
      assert NoFileMatch(oldFiles, cands, newFile);
      forall j | 0 <= j < |plan| - 1
        ensures RecordFits(plan[j], blockSize, j == |plan| - 2)
      {
        WindowSizes(newFile, blockSize, j);
        if plan[j].CopyBlock? {
          CopyFits(v, md, oldFiles, blockIdx, newFile, newBlocks[j], blockSize, plan[j]);
        }
      }
    }
  }

  /** Under any digest, the update file the source writes reads back into exactly the plan it
      computed. */
  lemma DiffFileDecodes(md: seq<byte> -> seq<byte>, oldFiles: seq<seq<byte>>, fileIdx: map<string, seq<nat>>,
                        newFile: seq<byte>, newHash: string, blockSize: nat)
    requires blockSize > 0 && FitsInWords(oldFiles)
    ensures var blockIdx := BlockIndex(AllBlockHashes(md, oldFiles, blockSize));
      var newBlocks := BlockHashes(md, newFile, blockSize);
      Decode(DiffFile(oldFiles, fileIdx, blockIdx, newFile, newHash, newBlocks, blockSize), blockSize)
        == Some(DiffPlan(AsWritten, oldFiles, fileIdx, blockIdx, newFile, newHash, newBlocks, blockSize))
  {
    var blockIdx := BlockIndex(AllBlockHashes(md, oldFiles, blockSize));
    var plan := DiffPlan(AsWritten, oldFiles, fileIdx, blockIdx, newFile, newHash, BlockHashes(md, newFile, blockSize), blockSize);
    PlanWellFormed(AsWritten, md, oldFiles, fileIdx, blockIdx, newFile, newHash, blockSize);
    DecodeSerialize(plan, blockSize);
  }

  /** The update file the source writes for a new file rebuilds it from the old files, provided
      the digest has no collisions and the block index is the old files' own. */
  lemma DiffFileRebuilds(md: seq<byte> -> seq<byte>, oldFiles: seq<seq<byte>>, fileIdx: map<string, seq<nat>>,
                         newFile: seq<byte>, newHash: string, blockSize: nat)
    requires blockSize > 0 && FitsInWords(oldFiles) && Injective(md)
    ensures var blockIdx := BlockIndex(AllBlockHashes(md, oldFiles, blockSize));
      Reconstruct(oldFiles, DiffFile(oldFiles, fileIdx, blockIdx, newFile, newHash, BlockHashes(md, newFile, blockSize), blockSize), blockSize)
        == Some(newFile)
  {
    var blockIdx := BlockIndex(AllBlockHashes(md, oldFiles, blockSize));
    var plan := DiffPlan(AsWritten, oldFiles, fileIdx, blockIdx, newFile, newHash, BlockHashes(md, newFile, blockSize), blockSize);
    PlanWellFormed(AsWritten, md, oldFiles, fileIdx, blockIdx, newFile, newHash, blockSize);
    DecodeSerialize(plan, blockSize);
    PlanRebuilds(AsWritten, md, oldFiles, fileIdx, blockIdx, newFile, newHash, blockSize);
  }

  /** With corrected verification the update file rebuilds the new file whatever the digest and
      whatever the indexes hold: every copied block has been compared byte for byte. */
  lemma DiffFileCorrectedRebuilds(md: seq<byte> -> seq<byte>, oldFiles: seq<seq<byte>>, fileIdx: map<string, seq<nat>>,
                                  blockIdx: map<string, seq<(nat, nat)>>, newFile: seq<byte>, newHash: string, blockSize: nat)
    requires blockSize > 0 && FitsInWords(oldFiles)
    ensures Reconstruct(oldFiles, DiffFileCorrected(oldFiles, fileIdx, blockIdx, newFile, newHash, BlockHashes(md, newFile, blockSize), blockSize), blockSize)
      == Some(newFile)
  {
    var plan := DiffPlan(Corrected, oldFiles, fileIdx, blockIdx, newFile, newHash, BlockHashes(md, newFile, blockSize), blockSize);
    PlanWellFormed(Corrected, md, oldFiles, fileIdx, blockIdx, newFile, newHash, blockSize);
    DecodeSerialize(plan, blockSize);
    PlanRebuilds(Corrected, md, oldFiles, fileIdx, blockIdx, newFile, newHash, blockSize);
  }
}
