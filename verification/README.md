# Version-Tool diff engine in Dafny

A model of the part of Version-Tool that turns an old and a new directory tree into one binary
instruction stream per new file, and of its command-line option parser. It also proves
properties of that model.

- **Scanning and listing** (module `FileTree`). `buildFileTree` / `s_buildFileTreeRecv` turn a
  directory into a tree of `fTreeNode`s. `bfsListFiles` lists the tree: a node's id is its
  position in the list. The filesystem is a tree of named entries (`Entry`).
- **Hashing** (module `Hashing`). SHA-256 is the function parameter `md`. `Sha256` is the
  lowercase hex rendering of `md`. `sha256File` feeds 8192-byte chunks. `sha256FileBlocks` hashes
  consecutive `blockSize` windows numbered from zero.
- **Comparators** (module `Compare`). `validateEqual` compares whole files in 32 KiB chunks.
  `validateBlockEqual` compares one read of up to `blockSize` bytes at a given offset in two
  files. A file that cannot be opened is `None`.
- **Indexes** (module `Index`). There are two inverted indexes: whole-file digest to old ids, and
  block digest to `(old id, block index)` pairs. Both are `map`s, and each list is in scan order.
- **Per-file diff** (module `Diff`). This is the body of the output loop:
  - a `COPY_FILE` record for the first old file whose digest matches and whose bytes are equal;
  - otherwise, for each new block, a `COPY_BLOCK` for the first verified candidate, or a
    `WRITE_BLOCK` with the block's literal bytes;
  - then `DONE`.

  Size fields are 8-byte little-endian `size_t` values (module `Wire`).
- **Reading streams back** (module `Patch`). The program has no reader, so the model defines
  one, `Decode` plus `Apply`. It is the reference for the round-trip and reconstruction
  theorems.
- **The whole run** (module `Pipeline`). This covers `main` from listing the old tree to the
  last update file, with the source's failure points as `RunError`s.
- **Option parsing** (module `ArgsParser`). `parseArgs` scans left to right, then fills in
  defaults. "Print help and exit" becomes the result `Help`, and every `invalid_argument` becomes
  a `Failed` result.

The code has two defects, described under "## Findings". The datatype `Variant` (`AsWritten` or
`Corrected`) selects either the code as written or the repaired reading.
`Run(Corrected, ...)` repairs both defects.

The system's own description of its behaviour differs from the code in three places, and the
model follows the code:
- The description says only regular files are listed and get ids. `bfsListFiles`
  (src/main_vct.cpp:69-79) lists directory nodes too, so they get ids, are hashed through `read`,
  and get an output stream.
- The description calls the order breadth-first by depth. The code lists a node's children and
  then recurses into each child in turn, so the first child's grandchildren come before the second
  child's children. The model shows that every node below the root is listed exactly
  once (`FileTree.FlattenIsPermutation`).
- The description calls the matching collision-safe. The block verification is not; see
  Findings.

## Model

| member | source | states |
|---|---|---|
| Wire.WriteSize | src/main_vct.cpp:81-84 | `writeToBuffer` of a `size_t` always fills exactly eight bytes; what those bytes mean is `Wire.SizeRoundTrip` |
| Wire.ReadSize | src/main_vct.cpp:86-92 | `readFromBuffer<size_t>` always yields a value below 2^64; it inverts `Wire.WriteSize` by `Wire.SizeRoundTrip` and `Wire.SizeBytesRoundTrip` |
| Wire.SizeRoundTrip | src/main_vct.cpp:81-92 | `readFromBuffer` after `writeToBuffer` of a `size_t` field gives the value reduced to 64 bits, so any value below 2^64 comes back unchanged |
| Wire.SizeBytesRoundTrip | src/main_vct.cpp:81-92 | the other direction: every 8-byte field is the encoding of the value read from it |
| Wire.ReadSizePrefix | src/main_vct.cpp:88-92 | a size read from the front of a longer buffer is the size written there, whatever follows |
| Hashing.Hex | src/file_utils.cpp:39-43 | the hex text is exactly two characters per digest byte; byte `i` gives characters `2i` and `2i+1` (high nibble, then low nibble, zero-padded, lowercase) |
| Hashing.HexRoundTrip | src/file_utils.cpp:39-43 | reading the hex text back gives the digest bytes, so the rendering loses nothing |
| Hashing.HexDigits | src/file_utils.cpp:39-43 | the rendering uses only the characters `0-9a-f` |
| Hashing.HexInjective | src/file_utils.cpp:39-43 | two digests with the same hex text are the same digest |
| Hashing.Sha256 | src/file_utils.cpp:14-44 | the digest string is lowercase hex text that reads back into the message digest's bytes |
| Hashing.Sha256Injective | src/file_utils.cpp:14-44 | under a collision-free message digest, equal hex digests mean equal inputs |
| Hashing.Sha256File | src/file_utils.cpp:46-84 | a file that cannot be opened is the "Cannot open file" error; otherwise the 8192-byte reads feed every byte once and in order, so the result is the digest of the whole contents |
| Hashing.Sha256FileBlocks | src/file_utils.cpp:152-174 | a file that cannot be opened is an error; otherwise there are ceil(n / blockSize) records (none for an empty file), and record `k` has index `k` and the digest of window `k` |
| Hashing.WindowsCover | src/file_utils.cpp:159-165 | the windows laid end to end give back the whole file |
| Hashing.WindowSizes | src/file_utils.cpp:159-165 | every window is non-empty and at most `blockSize` long, and every window but the last is exactly `blockSize` long |
| Hashing.BlockCountBounds | src/file_utils.cpp:159-173 | the windows reach the end of the file, the last one starts inside it, and an empty file has none |
| Compare.ValidateEqual | src/file_utils.cpp:86-124 | true exactly when both files open and have the same contents, including empty files and lengths that are multiples of the chunk size |
| Compare.ValidateBlockEqual | src/file_utils.cpp:126-150 | true exactly when both files open and the reads of up to `blockSize` bytes at the offset deliver the same bytes; two reads past both ends compare equal |
| Compare.BlockEqualAgreement | src/file_utils.cpp:126-150 | a match at an offset inside the first file means the second file also reaches it, both end at the same point within the window, and they agree byte for byte up to there |
| Index.FileIndex | src/main_vct.cpp:232-235 | the index has a key for every old digest and no other, and each list equals the reference list of positions holding that digest |
| Index.FileIndexExact | src/main_vct.cpp:232-235 | the ids under a digest are exactly the old files with that digest, in ascending order, so each old id appears once, under its own digest |
| Index.BlockIndex | src/main_vct.cpp:236-239 | each list equals the hits of the file-by-file, block-by-block scan, in that order |
| Index.BlockIndexMembership | src/main_vct.cpp:236-239 | `(f, k)` is listed under `h` exactly when old file `f` has a block record `k` with digest `h` |
| Diff.DiffPlan | src/main_vct.cpp:248-320 | if some whole-file candidate verifies, the plan is a copy of the first one followed by DONE. Otherwise there is one record per new block, in order, each as `RecordFor` requires. In both cases exactly one DONE, at the end |
| Diff.BlockRecordIsRecordFor | src/main_vct.cpp:281-312 | the record `Diff.BlockRecord` chooses for a block is the first verified candidate under its digest, or, when none verifies, the block's literal bytes |
| Diff.RecordForFirstCandidate | src/main_vct.cpp:284-295 | when the first candidate verifies, the record copies it, whatever follows it in the list |
| Diff.RecordForOnlyMatch | src/main_vct.cpp:284-295 | when exactly one candidate verifies, the record copies that candidate |
| Diff.RecordForNoCandidate | src/main_vct.cpp:302-311 | when no candidate verifies, the record is the new file's bytes at the block's offset, clamped to the end of the file |
| Diff.AbsentDigest | src/main_vct.cpp:256-282 | a digest missing from an index has no candidates: the file goes block by block, and a block whose digest is missing is written literally |
| Diff.AsWrittenCopyGuarantee | src/main_vct.cpp:286 | what the as-written check actually guarantees for a copied `(f, k)`: old file `f` and the new file agree at the OLD block's offset, and that is the new block only when `k` is its own index |
| Diff.DiffFile | src/main_vct.cpp:255-278 | when a whole-file candidate verifies, the stream is exactly `[0x01]`, the 8-byte id of the first verifying candidate, `[0x04]`; every stream ends in DONE |
| Diff.SerializeEndsWithDone | src/main_vct.cpp:314-315 | a plan closed by DONE serialises to bytes ending in 0x04, and a COPY_FILE plan to the 10-byte record |
| Patch.DecodeSerialize | src/main_vct.cpp:262-315 | the wire format is unambiguous: reading back the bytes `Diff.Serialize` writes for a well-formed plan gives the plan |
| Patch.DecodeRecord | src/main_vct.cpp:288-311 | the bytes `Diff.Record` writes for one record (opcode, then 8-byte fields or the literal block), in front of a stream, read back as that record followed by the rest |
| Patch.PlanWellFormed | src/main_vct.cpp:262-311 | the plan fits the wire format (ids and block indexes below 2^64, every literal block full except possibly the last): as written under ANY digest, given the old files' own block index; corrected under any index |
| Patch.DiffFileDecodes | src/main_vct.cpp:248-320 | under any digest, the stream the code writes for a new file reads back into exactly the plan it computed |
| Patch.RecordPayload | src/main_vct.cpp:284-311 | under trustworthy verification, the record chosen for block `j` supplies exactly window `j` of the new file, and a copied block lies inside its old file |
| Patch.VerifiedCandidate | src/main_vct.cpp:282-286 | a candidate from the old files' own block index carries the same window as the new block when the digest has no collisions |
| Patch.PlanRebuilds | src/main_vct.cpp:248-320 | applying the plan to the old files rebuilds the new file, whenever the verification used can be trusted |
| Patch.DiffFileRebuilds | src/main_vct.cpp:248-320 | the stream the code writes rebuilds the new file from the old files, provided the digest has no collisions |
| Patch.DiffFileCorrectedRebuilds | src/main_vct.cpp:281-312 | with the block check reading the new file at its own offset, the stream rebuilds the new file for any digest and any index contents |
| Findings.CollisionPlanAsWritten | src/main_vct.cpp:286 | for old "AAAABBBB" and new "AAAACCCC" under a digest where everything collides, the code copies old block 0 for both new blocks |
| Findings.CollisionCopiesWrongBlock | src/main_vct.cpp:286 | that stream rebuilds "AAAAAAAA", not the new file |
| Findings.CollisionCorrected | src/main_vct.cpp:286 | corrected, the same inputs give copy block 0, then the literal "CCCC", and the plan rebuilds "AAAACCCC" |
| Findings.ShiftedBlockMissed | src/main_vct.cpp:286 | for old [1, 2] and new [2, 3] with one-byte blocks, whatever the digest, the code writes both new blocks literally, although new block 0 is old block 1 |
| Findings.ShiftedBlockFound | src/main_vct.cpp:286 | corrected, new block 0 is copied from old block 1 |
| FileTree.BuildFileTree | src/file_utils.cpp:194-210 | there is no tree exactly when the path is not a directory; otherwise the root has its path and relative path `__INPUT_ROOT__`, the whole tree mirrors the directory (`Mirrors`: one child per entry at every depth, in order, with the entry's path and kind, files as leaves), and a top-level file's relative path is its name |
| FileTree.BuildDir | src/file_utils.cpp:177-192 | the scan of a sub-directory carries the relative path it was handed, mirrors the sub-directory at every depth (recursively built children, files as leaves), and gives each file directly inside it that relative path followed by the file's name |
| FileTree.FlattenIsPermutation | src/main_vct.cpp:69-79 | the listing holds every node below the root exactly once (a permutation of the pre-order listing), so there is one id per non-root node |
| FileTree.Flatten | src/main_vct.cpp:69-72 | the root's children are listed first, in order, before any deeper node |
| FileTree.ScannedRelativePaths | src/file_utils.cpp:177-210 | every listed node lies below the scanned root, and its relative path relates to its path as `RelativePathOk` says for the variant |
| FileTree.NestedFileLosesDirectory | src/file_utils.cpp:185 | as written, a top-level file `f` and a file `D/f` get the same relative path `f` |
| FileTree.CorrectedRelativePaths | src/file_utils.cpp:185-187 | corrected, every listed node's path is the scanned root followed by its relative path |
| Pipeline.Run | src/main_vct.cpp:159-320 | the run fails when the old root is not a directory, and fails with an empty old tree exactly when the listing is empty. When the old side is a non-empty, fully readable tree and the new root is not a directory, the failure names the new root. An unreadable path reported is the first unreadable one of the old listing in id order, or, when every old path can be opened, the first of the new listing. On success, every old file was read and there is one output per listed new node, under that node's relative path |
| Pipeline.RunSucceeds | src/main_vct.cpp:159-222 | the run succeeds exactly when both roots are directories, the old tree lists something, and every listed old and new path can be opened |
| Pipeline.DiffTree | src/main_vct.cpp:201-320 | hashing the new tree fails only on the first listed path, in id order, that cannot be opened, and otherwise yields one output per listed node |
| Pipeline.Listing | src/main_vct.cpp:69-79 | the listing has exactly as many entries as there are nodes below the root, and every node below the root, in the depth-first reference listing, appears in it with its `(path, relative path)` pair, so every node gets an id |
| Pipeline.DiffAll | src/main_vct.cpp:248-320 | one output per new file, in id order, each under its relative path |
| Pipeline.DiffAllRebuilds | src/main_vct.cpp:226-320 | against indexes built from the old files, every stream rebuilds its new file: always when corrected, and as written whenever the digest has no collisions |
| Pipeline.RunRebuilds | src/main_vct.cpp:159-320 | after a successful run, each stream rebuilds from the old files the contents of the new file listed at its position: always when corrected, and as written only under a collision-free digest |
| Pipeline.RunCorrectedPaths | src/main_vct.cpp:249 | corrected, each stream is written at the new root joined with a relative path that leads back to its own new file |
| ArgsParser.Find | src/args_parser.cpp:29-32 | lookup fails exactly for keys not in the table; a found spec is the table's entry for that key |
| ArgsParser.ScanOutcome | src/args_parser.cpp:19-55 | `ArgsParser.Scan`, the argument loop, sets only known options, never reports a missing required option, reports "Missing value" only for a valued option in the last position, and reports "Unknown option" only for one of the arguments, which is not in the table or does not start with '-' |
| ArgsParser.ScanRender | src/args_parser.cpp:32-50 | a BOOL option sets "true" without consuming the next argument; a valued option consumes exactly the next one; acceptable settings are recorded in order |
| ArgsParser.AssignLast | src/args_parser.cpp:50 | a repeated option keeps the last value given |
| ArgsParser.ScanAppend | src/args_parser.cpp:19-55 | a scan that gets through a prefix continues with the prefix's map, so whatever follows is judged in the same state |
| ArgsParser.HelpAfterValid | src/args_parser.cpp:22-25 | `-h` or `-help`, reached after a well-formed prefix, yields Help, whatever follows |
| ArgsParser.UnknownAfterValid | src/args_parser.cpp:27-54 | an argument reached after a well-formed prefix is an "Unknown option" error when it is not a key of the table, and also when it is a key but is empty or does not start with '-' |
| ArgsParser.MissingValueAtEnd | src/args_parser.cpp:35-37 | a valued option in the last position is a "Missing value" error |
| ArgsParser.RejectedValue | src/args_parser.cpp:39-48 | an ENUM value not among the listed values is "Invalid value" and a NUMBER value that does not parse is "Invalid number", whatever follows |
| ArgsParser.Fill | src/args_parser.cpp:56-64 | keys already set keep their values, an unset optional key gets its default, and an unset required key is a "Missing required option" error naming the first such key in table order |
| ArgsParser.ParseArgs | src/args_parser.cpp:17-66 | on success the key set is exactly the table's key set, and every required option is present |
| ArgsParser.ParseRender | src/args_parser.cpp:17-66 | the arguments that spell out acceptable settings parse to those settings, later ones winning, with defaults for the rest |

## Left out

- ZIP packaging of the output directory (src/main_vct.cpp:18-66): foreign library and file I/O.
- The progress bar (src/progress_bar.h, src/progress_bar.cpp) and src/sandbox.cpp: console output
  and timing. The one observable effect is kept: `progress_bar::ranged(0, -1)` throws on an empty
  old listing, which is `RunError.EmptySource`.
- src/env.hpp: the temporary directory name, environment variables and directory creation.
- The validation files and the input listing (src/main_vct.cpp:182-199, 326-335): plain text
  output with no logic.
- `printTree` and `printHelp`: output only. Help is the result `Help`.
- SHA-256 itself and the OpenSSL failure paths: the digest is the parameter `md`. A failing
  `EVP_*` call cannot be expressed, so those exceptions are not modelled.
- Parsing numbers as `long double` (src/args_parser.cpp:44-48) is the predicate parameter
  `isNumber`. Parsing `-bs` into `size_t` (src/main_vct.cpp:146-148) is replaced by a `blockSize`
  argument with `blockSize > 0`: with a block size of 0 the read loop at
  src/file_utils.cpp:159-163 never ends.
- Directory iteration order and the filesystem: a directory is its given sequence of entries,
  and reading a file is the parameter `read`. What reading a directory node yields is whatever
  `read` returns for its path.
- Writing the update files: missing output sub-directories and two outputs written to the same
  relative path (which the relative-path defect causes) are not modelled. The run returns the
  list of `(relative path, stream)` pairs.
- The `desc` field of `Option` and the `path` field of `BlockHash`: never read by the modelled
  logic.
- The `long` and `streampos` conversions of offsets and sizes: the model uses unbounded naturals.
  Size fields are reduced to 64 bits explicitly (`Wire.WriteSize`).
- Diff.DiffPlan: a single closing DONE is stated at the level of records. The byte 0x04 can
  also occur inside size fields and literal blocks, so no byte-level count is claimed. That the
  byte stream parses back to exactly these records is `Patch.DecodeSerialize`.
- FileTree.Flatten: the order is stated only for the root's children, which come first; deeper
  levels are covered by the definition and by `FileTree.FlattenIsPermutation`.
- Patch.DiffFileRebuilds: assumes a collision-free digest, because the block check as written
  never compares the new block itself (see Findings). The code makes no reconstruction promise
  of its own.
- Pipeline.RunRebuilds: assumes every old file and the number of old files fit in 64 bits, so
  that the `size_t` fields carry them unchanged. For the code as written it also assumes a
  collision-free digest, as `Patch.DiffFileRebuilds` does; without one the stream can rebuild
  the wrong bytes (see Findings).
- `invertedInputList` (src/main_vct.cpp:227, 234) is filled but never read, so it is not modelled.

## Findings

| source | as written | input that shows it | evidently intended | confidence | as-written member | corrected member |
|---|---|---|---|---|---|---|
| src/main_vct.cpp:286 | `validateBlockEqual(old[f], new, k * blockSize, blockSize)` reads the new file at the candidate's OLD block offset, not at the new block's own offset, so the byte check does not compare the block being encoded | old "AAAABBBB", new "AAAACCCC", block size 4, a digest under which all blocks collide: both new blocks become copies of old block 0, and the stream rebuilds "AAAAAAAA". Old [1, 2], new [2, 3], block size 1: new block 0 equals old block 1 but is written literally, for any digest | compare the old block at `k * blockSize` with the new block at `blockHash.index * blockSize` | high (not executed) | Findings.CollisionCopiesWrongBlock, Findings.ShiftedBlockMissed | Patch.DiffFileCorrectedRebuilds, Findings.CollisionCorrected, Findings.ShiftedBlockFound |
| src/file_utils.cpp:185 | a sub-directory is scanned with `relativePath / rootNode->path.filename()`, the current directory's name rather than the sub-directory's, so a file's immediate directory is missing from its relative path | a root holding a file `f` and a directory `D` with a file `f`: both files get relative path `f`, and their update files go to the same place | pass `relativePath / entry.path().filename()`, and start a top-level directory from its own name | high (not executed) | FileTree.NestedFileLosesDirectory | FileTree.CorrectedRelativePaths, Pipeline.RunCorrectedPaths |
