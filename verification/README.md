# Android recovery and OTA updater: a verified model

A Dafny model of the parts of Android's recovery system that carry its promises: making and applying binary patches,
patching files so that a power failure loses nothing, the zip index and its hash table, flash input and output around bad
blocks, the signature container, and three small state machines. Every claim below is a contract or a lemma for all inputs.

The code keeps the form of the sources. Loops over arrays are methods with loops and invariants on arrays, structures that
are updated in place are classes, pure computations are functions. Each method is tied to a function or a predicate that
says what it computes, and the lemmas are about those.

| files | what they model |
|---|---|
| `Bytes` | fixed-width integers of the patch formats |
| `SuffixOrder`, `SuffixGroups`, `SuffixPartition`, `SuffixSplit`, `SuffixBuckets`, `SuffixSort` | `split` and `qsufsort` of bsdiff |
| `BsdiffFormat`, `BsdiffScan`, `Bspatch` | the bsdiff patch format, its writer and its reader |
| `ImageFormat`, `ImageChunks`, `ImageRead`, `ImageBulk`, `ImageEdit`, `ImageDiff`, `Imgdiff`, `ZipNamesakes`, `Zipdiff`, `ImagePatch` | imgdiff in both modes, and imgpatch |
| `Digest`, `FreeCache`, `ApplyPatch`, `ApplyPatchRun` | applypatch as a step machine with crashes, and as the program it is |
| `HashSlots`, `HashTable`, `ZipNames`, `ZipArchive`, `ZipExtract` | minzip |
| `ZipFormat` | zip archives as sections 4.3.12 and 4.3.16 of the PKWARE application note write them |
| `MtdDevice`, `MtdWrite`, `MtdRead` | mtdutils |
| `Asn1`, `Pkcs7`, `Footer`, `SignedPackage` | the DER cursor, `read_pkcs7`, the footer checks of the verifier, and a signed package as a whole |
| `LocalSocket`, `Retouch`, `RetouchInfer`, `BootMessage` | the adb local socket, the retouch masker, the bootloader message |
| `Laws` | instances that meet the laws asked of foreign code |

Foreign code enters as values with laws. A `Bzip2` is a pair of functions where decompression undoes compression
whatever follows the stream; it is modest if it never more than doubles the data and adds 600 bytes. A `Zlib` is an
`inflate` that tells where a stream ends and a `deflate` that is a function of its parameters and data. In `ApplyPatch`
the hash is any function, masking is idempotent, and a patch makes content with the target hash out of content with its
source hash. `Laws` shows that these laws can be met. Clocks, free space, write results and crashes are parameters, and
the claims hold for all of them.

## Main results

- `SuffixSort.Qsufsort`: for every byte string, the array ends as the suffix array: a permutation of all positions, suffixes
  in strictly increasing order. `SuffixArrayUnique`: there is only one such array.
- `BsdiffScan.Bsdiff` with `BsdiffFormat.PatchRebuilds` and `Bspatch.ApplyBSDiffPatchMem`: what bspatch makes of old and the
  patch is new, wherever the patch stands in a file and whatever follows it. There is a patch exactly when the two blocks
  whose lengths are stored can be stored.
- `Imgdiff.DiffImages` and `Zipdiff.DiffZips`: `ApplyImagePatch` on the file that imgdiff writes gives exactly the target,
  through normal, raw and deflate chunks, with bonus data in image mode. With a modest compressor and files of moderate size
  a file is always written, except in the cases named by exact conditions. The branch "merging normal chunks went awry" is
  unreachable, and chunk 1 is always a deflate chunk, so bonus data never go to a normal chunk.
- `ApplyPatch.CrashSafe` and `InterruptedThenComplete`: whatever crash points and failures there were, the target can still
  be made, and one run in which nothing fails makes it. `ApplyPatchRun.Applypatch`: every run of the program is a run of
  that machine.
- `HashTable.RunOps`: over every run of operations the table answers like a finite map. `FillPresized`: a table sized by
  `mzHashSize(n)` keeps its slots during `n` adds.
- `MtdRead.RoundTrip`: data written in any chunks read back in any other chunks, zero-padded to a block boundary.
- `LocalSocket.Run` and `Deliver`: over every interleaving of packets, writable events and a close, written and queued bytes
  are the accepted ones; a host that waits for its OKAY has all but at most one, and the last one when all is written.
- `SignedPackage.PackageAccepted`: of every signed package with one end marker, the verifier takes the signer's signature
  and minzip the entries of the directory, both from the same end record. `Pkcs7.SignatureOfDer` and
  `Footer.VerifierAndMinzipAgree` are its halves.

Where a promise does not hold of the code as it stands, the model keeps the code and says exactly when it fails:
`ImageRead.TailLoopsIff` and `InflateLoopsIff` (reading an image never ends on some inputs), `Zipdiff.OrphanedIff` (a target
chunk can lose its source, which takes two target entries of one name), `ApplyPatch.NeverLostIff` (a source that stands in
the cache directory can be lost), `BootMessage.ReadBackIff` (arguments that are not read back), `RetouchInfer.InferredIff`
(overlapping entries), `Pkcs7.AttributesInTheWay` (signed attributes), `Footer.InCommentIff` (a footer that announces more
signature than comment), `LocalSocket.RetryMatters` (an interrupted write closes a local socket during
`local_socket_enqueue`, but goes unnoticed in the event function). `BsdiffScan.FoundIsLongest` gives a condition under which
the match found is a longest one, and `ShorterFound` an input on which it is not. One comment in the sources does not match
the code: `ParseSha1` accepts nothing after the forty digits (`Digest.NothingMayFollow`).

## Model

| member | source | states |
|---|---|---|
| `Bytes.Read4OfWrite4` | applypatch/utils.c:22-53 | reading back four written bytes gives the value exactly when it fits 32 bits |
| `Bytes.Read8OfWrite8` | applypatch/utils.c:30-65 | reading back eight written bytes gives the value exactly when it fits 64 bits |
| `Bytes.OfftInOfOfftOut` | applypatch/bsdiff.c:195-211 | `offtin` undoes `offtout` for every magnitude below 2^63 |
| `Bytes.OfftOutValue` | applypatch/bspatch.c:66-82 | the eight bytes of `offtout` are magnitude and sign bit, as `offtin` takes them |
| `SuffixPartition.Partition` | applypatch/bsdiff.c:83-111 | the three-way partition shuffles the stretch so that smaller, equal and greater keys stand in that order |
| `SuffixSplit.SelectLeast` | applypatch/bsdiff.c:65-76 | one round of the short sort moves exactly the entries with the least key to the front |
| `SuffixSplit.SplitShort` | applypatch/bsdiff.c:64-81 | the short sort settles every entry of the group and numbers the groups by their ends |
| `SuffixSplit.Split` | applypatch/bsdiff.c:60-119 | `split` keeps the entries, only refines the group order, numbers every group by its end and marks an entry exactly if it is alone in its group; keys are read inside V only |
| `SuffixBuckets.BucketStarts` | applypatch/bsdiff.c:126-130 | the counting passes give for each byte how many smaller bytes there are |
| `SuffixBuckets.Place` | applypatch/bsdiff.c:132-133 | every position goes to its own slot of its bucket |
| `SuffixSort.StartGroups` | applypatch/bsdiff.c:132-137 | the buckets are groups of suffixes that agree on one byte, in order |
| `SuffixSort.Pass` | applypatch/bsdiff.c:139-153 | one pass turns groups that agree on h bytes into groups that agree on 2h bytes and keeps the order, with the run-length marks in step |
| `SuffixSort.OverMeansSorted` | applypatch/bsdiff.c:139-139 | the loop ends only when every group is single, so that the suffixes are sorted |
| `SuffixSort.Qsufsort` | applypatch/bsdiff.c:121-157 | ends with a permutation of all positions that lists the suffixes in strictly increasing lexicographic order |
| `SuffixSort.SuffixArrayUnique` | applypatch/bsdiff.c:121-157 | no other array is a suffix array of the same string |
| `SuffixOrder.LessIsLexLess` | applypatch/bsdiff.c:60-157 | the order by positions is the lexicographic order of the suffixes |
| `BsdiffScan.MatchLen` | applypatch/bsdiff.c:159-167 | the length of the longest common prefix |
| `BsdiffScan.Search` | applypatch/bsdiff.c:169-193 | ends at the better of the two neighbours that halving by `memcmp` leads to; the match is where it says and cannot be longer there; its length is 0 exactly when the first byte does not occur in old |
| `BsdiffScan.FoundIsLongest` | applypatch/bsdiff.c:169-193 | if no suffix of old ends inside the query, no match anywhere in old is longer than the one found |
| `BsdiffScan.ShorterFound` | applypatch/bsdiff.c:179-192 | else a shorter one can be found: in "aba" the search for "ab" ends at the last letter |
| `BsdiffScan.NextMatch` | applypatch/bsdiff.c:284-301 | the scan stops at a match in range or at the end, and goes forward |
| `BsdiffScan.ExtendForward` | applypatch/bsdiff.c:304-309 | the shortest forward extension with the best score |
| `BsdiffScan.ExtendBackward` | applypatch/bsdiff.c:311-318 | the shortest backward extension with the best score |
| `BsdiffScan.CutOverlap` | applypatch/bsdiff.c:320-333 | the first of the best cuts through an overlap |
| `BsdiffScan.EmitTriple` | applypatch/bsdiff.c:335-360 | the triple describes the next stretch of new: lengths are not negative, old positions are inside old |
| `BsdiffScan.Scan` | applypatch/bsdiff.c:281-362 | ends, and the triples with the two blocks describe all of new, whatever in-range matches were found; no more triples than bytes of new and one |
| `BsdiffScan.Bsdiff` | applypatch/bsdiff.c:224-410 | the patch is the file of a script that describes new, and makes new out of old wherever it stands; there is none exactly when a compressed block of that script is too long for an `off_t` |
| `BsdiffFormat.BlocksFillNew` | applypatch/bsdiff.c:335-341 | diff and extra block together are as long as new |
| `BsdiffFormat.CtrlReadBack` | applypatch/bspatch.c:199-206 | the control block is read back triple by triple |
| `BsdiffFormat.EncodedReplays` | applypatch/bspatch.c:193-246 | replaying triples that describe new gives new |
| `BsdiffFormat.HeaderReadBack` | applypatch/bspatch.c:138-152 | the header fields are read back |
| `BsdiffFormat.PatchUnpacks` | applypatch/bspatch.c:154-184 | the three blocks are found again wherever the patch stands and whatever follows it |
| `BsdiffFormat.PatchRebuilds` | applypatch/bspatch.c:123-252 | the patch file made from triples that describe new makes new out of old |
| `BsdiffFormat.NotStorable` | applypatch/bsdiff.c:367-386 | if there is no patch, then some block of at most 24 bytes per byte of new is too long once compressed |
| `BsdiffFormat.ModestFile` | applypatch/bsdiff.c:363-404 | with a modest compressor there is a patch, of at most 50 bytes per byte of new and 1880 |
| `Bspatch.ApplyTriple` | applypatch/bspatch.c:208-245 | one triple adds old to the diff bytes and copies the extra bytes, or fails exactly when the source does |
| `Bspatch.ApplyBSDiffPatchMem` | applypatch/bspatch.c:123-252 | the loop over the buffer computes what the patch means, errors included |
| `ImageFormat.RecordReadBack` | applypatch/imgpatch.c:61-123 | the cursor reads back every field of every kind of record, negative window bits included |
| `ImageFormat.RecordsSizeIsLength` | applypatch/imgdiff.c:977-991 | the size added per chunk is the number of bytes its record takes |
| `ImageDiff.FileReads` | applypatch/imgpatch.c:43-123 | the records of a written header are read back unchanged, whatever follows them |
| `ImageChunks.MergedTiles` | applypatch/imgdiff.c:712-760 | merging keeps the covered bytes |
| `ImageChunks.MergedKinds` | applypatch/imgdiff.c:712-760 | what merging does to the chunk types depends on the types alone |
| `ImageChunks.SquashedNoTwoNormals` | applypatch/imgdiff.c:707-711 | no two adjacent normal chunks are left |
| `ImageChunks.MergedInParallel` | applypatch/imgdiff.c:928-939 | two lists with the same types still match after merging |
| `ImageChunks.MergeAdjacentNormalChunks` | applypatch/imgdiff.c:712-760 | the in-place compaction gives the merged list and its length |
| `ImageRead.ReadImage` | applypatch/imgdiff.c:376-519 | the chunks cut at the gzip members tile the image |
| `ImageRead.SplitTiles` | applypatch/imgdiff.c:403-516 | every cut leaves no gap and no overlap |
| `ImageBulk.SplitBulk` | applypatch/imgdiff.c:403-516 | an image has no more chunks than bytes, and inflates to no more than 2^27 bytes for each of them |
| `ImageBulk.BulkMerged` | applypatch/imgdiff.c:712-760 | merging neither adds chunks nor inflated data |
| `ImageRead.TailLoopsIff` | applypatch/imgdiff.c:506-514 | the header search runs on the spot exactly when the image ends in 1f 8b 08 behind its last gzip member |
| `ImageRead.TailLoopsExample` | applypatch/imgdiff.c:506-514 | the shortest such image |
| `ImageRead.InflateLoopsIff` | applypatch/imgdiff.c:403-516 | reading ends in the inflate loop exactly when the stream of the first gzip member that is not good does not inflate, and fails exactly when that member is not good for another reason |
| `ImageEdit.TryReconstruction` | applypatch/imgdiff.c:529-566 | true exactly when compressing again gives the very bytes of the image |
| `ImageEdit.ReconstructDeflateChunk` | applypatch/imgdiff.c:574-599 | finds level 6 or else 9 exactly when one of them reproduces the bytes, and changes nothing but the parameters of the chunk |
| `ImageEdit.ToNormalCut` | applypatch/imgdiff.c:678-684 | a chunk changed to normal stands for the same bytes |
| `ImageEdit.EditPair` | applypatch/imgdiff.c:879-921 | a pair stays deflated exactly when the target can be compressed again and the two streams differ; both change together |
| `ImageEdit.EditPairs` | applypatch/imgdiff.c:879-921 | the paired edits keep both tilings, keep the types equal, leave normal chunks alone, and leave deflated exactly the pairs whose target can be compressed again and whose streams differ |
| `ImageDiff.WritePatch` | applypatch/imgdiff.c:977-1046 | the loops write the header with absolute offsets, then the bsdiff patches |
| `ImageDiff.HeaderSizeIsRecordsSize` | applypatch/imgdiff.c:977-993 | the precomputed header size is the size of the records written |
| `ImageDiff.FileLayout` | applypatch/imgdiff.c:993-1046 | the bsdiff patches stand at the offset computed before anything was written |
| `ImageDiff.OffsetsPoint` | applypatch/imgdiff.c:1001-1038 | at the offset stored for a chunk stands the bsdiff patch of that chunk |
| `ImageDiff.StorableIf` | applypatch/imgdiff.c:993-1046 | every field of the file fits its width if the number of chunks, the raw data and the length of the file do |
| `ImageDiff.FileLength` | applypatch/imgdiff.c:977-1046 | the file is as long as its records, its bsdiff patches and the twelve bytes in front |
| `ImageDiff.FileRebuilds` | applypatch/imgpatch.c:39-233 | a file of right pieces makes the target, whatever its pieces are |
| `Imgdiff.MakePatch` | applypatch/imgdiff.c:607-669 | raw exactly for short normal chunks and for those whose patch saves nothing, else a bsdiff patch with the source fields of its kind; nothing exactly when the patch cannot be stored |
| `Imgdiff.PieceGives` | applypatch/imgdiff.c:657-666 | the piece of a pair of like chunks gives the target's bytes |
| `Imgdiff.PartsJoin` | applypatch/imgdiff.c:403-516 | the parts of a tiling put together are the image |
| `Imgdiff.SecondIsDeflate` | applypatch/imgdiff.c:960-965 | chunk 1 is a deflate chunk, so bonus data are appended to inflated data only |
| `Imgdiff.MergedEdited` | applypatch/imgdiff.c:928-939 | after edits and merges the two lists match, chunk by chunk |
| `Imgdiff.DiffImages` | applypatch/imgdiff.c:836-1051 | image mode: exactly when the images cannot be read or are not alike; else the pieces give the target, and the file makes it if lengths fit their fields; no file only if a block or an inflated stream of these images is too long, and never for images under a gigabyte and a modest compressor |
| `Zipdiff.ReadZip` | applypatch/imgdiff.c:290-361 | the loop cuts the archive at its deflated entries, with the pseudo chunk first if asked, or ends at an entry that is bad, short or misplaced |
| `Zipdiff.PlacedIff` | applypatch/imgdiff.c:301-361 | an archive whose entries inflate is cut exactly when the entries that the walk comes to lie in order inside it; none is cut if they do not, and none is called misplaced if they do |
| `Zipdiff.ZipSplitTiles` | applypatch/imgdiff.c:301-361 | the chunks of an archive tile it |
| `Zipdiff.FindChunkByName` | applypatch/imgdiff.c:762-772 | the first deflate chunk of that name |
| `Zipdiff.EditZip` | applypatch/imgdiff.c:879-921 | the loop over both arrays does the edits one after the other |
| `Zipdiff.EditsSound` | applypatch/imgdiff.c:879-921 | the edits keep both lists cut from their archives, and what stays deflated can be compressed again |
| `Zipdiff.DistinctDecided` | applypatch/imgdiff.c:879-921 | with distinct names a target chunk stays deflated exactly when it can be compressed again and its first namesake in the source differs from it, and that source is still there at the end |
| `Zipdiff.SourceFor` | applypatch/imgdiff.c:949-958 | deflated targets are patched from their namesake, if it is still there, all others from the whole source |
| `ZipNamesakes.LosesLastIff` | applypatch/imgdiff.c:879-958 | for the chunks of one name as they were read: one that stays deflated ends without a source exactly when the sources are used up one after the other by target chunks that do not stay, and more target chunks came before the last of them than that takes |
| `ZipNamesakes.LosesOnly` | applypatch/imgdiff.c:879-958 | with one source: exactly when some target chunks stay next to it and then one does not |
| `Zipdiff.EditsNamesakes` | applypatch/imgdiff.c:879-921 | the edits work name by name: which sources of a name are left, and whether a target chunk of it stays, depends on the chunks of that name alone |
| `Zipdiff.OrphanedIff` | applypatch/imgdiff.c:879-958 | after all edits some target chunk has no source exactly when that condition holds of some name, on the chunks as they were read |
| `Zipdiff.DistinctKeepSource` | applypatch/imgdiff.c:879-958 | so never if no two target chunks have one name |
| `Zipdiff.DistinctEntriesKeep` | applypatch/imgdiff.c:827-958 | and never if no two target entries have one name |
| `Laws.TwinsLoseSource` | applypatch/imgdiff.c:879-958 | two archives with that outcome |
| `Zipdiff.DiffZips` | applypatch/imgdiff.c:827-1051 | zip mode, for all archives: unreadable exactly when one of them is; a readable pair is refused for a lost source only if the exact condition on the chunks as read holds, and nothing is written if it does; what is written are pieces that give the target, and the file makes the target if lengths fit their fields; too long never for moderate sizes and a modest compressor |
| `ImagePatch.ApplyImagePatch` | applypatch/imgpatch.c:39-233 | succeeds exactly when the patch means something; then sink and hash got the same bytes, namely what it means |
| `ImagePatch.ReadsWritten` | applypatch/imgpatch.c:61-123 | the moving cursor finds the written records one by one |
| `Digest.ParseSha1` | applypatch/applypatch.c:540-564 | parses exactly the strings of forty hex digits, and to the right bytes |
| `Digest.ParsedOfHex` | applypatch/applypatch.c:535-564 | a printed digest is parsed back |
| `Digest.NothingMayFollow` | applypatch/applypatch.c:535-564 | a digest with anything behind it is refused, although the comment allows a colon and more |
| `Digest.FindMatchingPatch` | applypatch/applypatch.c:569-580 | the first string that stands for the digest, or -1 |
| `FreeCache.FindExpendableFiles` | applypatch/freecache.c:74-126 | exactly the listed regular, unopened files of the two directories, never the backup copy |
| `FreeCache.MakeFreeSpaceOnCache` | applypatch/freecache.c:128-172 | deletes only such files, each only while space is short; fails only when all of them are gone |
| `ApplyPatch.StepKeeps` | applypatch/applypatch.c:716-1048 | every step of a run, failures and crashes included, keeps the invariant |
| `ApplyPatch.CrashSafe` | applypatch/applypatch.c:690-693 | at every point the target is patched, or source or backup copy can be patched; the target path holds its old bytes, nothing, or target-hash bytes; exit code 0 means patched |
| `ApplyPatch.SmoothStepLater` | applypatch/applypatch.c:843-1047 | a run in which nothing fails gets on with every step, so it ends |
| `ApplyPatch.CompletionExists` | applypatch/applypatch.c:716-1048 | from every point where a run can start, a complete run exists |
| `ApplyPatch.InterruptedThenComplete` | applypatch/applypatch.c:690-693 | any interrupted runs followed by one in which nothing fails leave the target patched |
| `ApplyPatch.AgainDoesNothing` | applypatch/applypatch.c:744-756 | on a patched target nothing is changed, over any number of runs and interruptions, and every run ends with exit code 0 |
| `ApplyPatch.CheckAfterCrash` | applypatch/applypatch.c:585-623 | after runs interrupted anywhere the check of the source still passes, unless the target is already patched |
| `ApplyPatch.ExpendableSourceLost` | applypatch/applypatch.c:899-909 | a source that may be deleted to free space can be lost, with or without an older backup copy |
| `ApplyPatch.NeverLostIff` | applypatch/applypatch.c:690-693 | from a source that can be patched, no interrupted runs lose the target exactly when the source may not be deleted to free space |
| `ApplyPatchRun.SaveCopy` | applypatch/applypatch.c:327-356 | the backup copy is truncated, written bit by bit and closed, or the run ends with an error |
| `ApplyPatchRun.MoveSource` | applypatch/applypatch.c:884-913 | space is made and the copy closed before the source is unlinked |
| `ApplyPatchRun.Install` | applypatch/applypatch.c:1004-1047 | only output with the target hash is renamed to the target, and the copy goes last |
| `ApplyPatchRun.GenerateTarget` | applypatch/applypatch.c:813-1048 | the retry loop takes only steps of the machine |
| `ApplyPatchRun.Applypatch` | applypatch/applypatch.c:716-811 | every run of the program is a run of the machine and ends with its exit code; when no operation fails, no step of it does, even if space is short |
| `ApplyPatchRun.SafeRun` | applypatch/applypatch.c:690-693 | whatever the outside world does, a run loses nothing, and exit code 0 means patched; when no operation fails the exit code is 0, even if space is short |
| `HashSlots.HashSize` | minzip/Hash.c:26-28 | a table of that size is never more than 5/8 full with that many elements |
| `HashSlots.RoundUpPower2IsLeast` | minzip/Hash.c:35-46 | the bit trick gives the least power of two that is not below its argument, for 1 to 2^31 |
| `HashSlots.NotThere` | minzip/Hash.c:191-211 | an empty slot at the end of the probe path means the key is nowhere |
| `HashSlots.AddKeeps` | minzip/Hash.c:213-217 | filling that slot keeps every entry reachable, keys unique, and adds one entry to the map |
| `HashSlots.RemoveKeeps` | minzip/Hash.c:266-272 | a tombstone keeps every other entry reachable and takes one entry out of the map |
| `HashTable.Probe` | minzip/Hash.c:191-211 | probing ends, at the entry of the key or at the first empty slot of its path |
| `HashTable.ResizeHash` | minzip/Hash.c:137-172 | the new slots hold the same map without tombstones |
| `HashTable.HashTable.Lookup` | minzip/Hash.c:179-248 | finds or adds as a map does; at most 5/8 of the slots are used afterwards; resizes only when it must |
| `HashTable.HashTable.Remove` | minzip/Hash.c:255-285 | removes exactly that item, if it is there |
| `HashTable.RunOps` | minzip/Hash.c:179-285 | over every run of operations the table answers like a finite map |
| `HashTable.FillPresized` | minzip/Hash.c:26-72 | a presized table keeps its slots during that many adds |
| `ZipNames.CompareIsOrder` | minzip/Zip.c:293-302 | the comparison decides the lexicographic order of names |
| `ZipArchive.FindEnd` | minzip/Zip.c:212-222 | the last end record that leaves room for a header, or none |
| `ZipArchive.SearchPlace` | minzip/Zip.c:281-313 | the binary search gives a place that keeps the order, right behind an equal name if there is one |
| `ZipArchive.InsertAt` | minzip/Zip.c:313-323 | the entries from there on move up by one |
| `ZipArchive.Parse` | minzip/Zip.c:187-414 | succeeds exactly when the file opens and all its records are good; the entries are the records, sorted by name |
| `ZipArchive.IndexEntries` | minzip/Zip.c:394-405 | every name is indexed to its first entry, without a resize |
| `ZipArchive.FindZipEntry` | minzip/Zip.c:505-512 | finds what a linear scan for the first entry of that name would find |
| `ZipFormat.EntryReadBack` | minzip/Zip.c:248-380 | a written directory record is read back field by field |
| `ZipFormat.ArchiveReadBack` | minzip/Zip.c:187-414 | a written archive, comment and all, opens at its end record exactly when no end signature stands behind it where the scan looks, and the records found there are the ones it was written from |
| `ZipFormat.OpenWritten` | minzip/Zip.c:430-475 | opening such an archive succeeds and gives its entries, sorted by name |
| `ZipExtract.NoneAfterMismatch` | minzip/Zip.c:998-1019 | on the sorted array nothing follows the first mismatch after a match |
| `ZipExtract.PathHelper.TargetEntryPath` | minzip/Zip.c:865-908 | target directory, a slash, and the rest of the name, although the buffer is used again |
| `ZipExtract.ExtractRecursive` | minzip/Zip.c:930-1040 | hands over the paths that a full scan would give, or refuses the directories exactly as the source does |
| `MtdWrite.Writer.WriteBlock` | mtdutils/mtdutils.c:407-474 | the data go to the first block that takes them; skipped blocks are recorded; it fails exactly when none is left |
| `MtdWrite.Writer.WriteData` | mtdutils/mtdutils.c:476-503 | for every chunking the stream grows by the data; it fails exactly when the complete blocks do not fit |
| `MtdWrite.Writer.EraseBlocks` | mtdutils/mtdutils.c:505-544 | pads to a block boundary, erases the good blocks behind it, and leaves the stream alone; fails exactly when the padding does not fit or more blocks are asked for than there are |
| `MtdWrite.Writer.Close` | mtdutils/mtdutils.c:546-556 | pending data are written with zero padding |
| `MtdWrite.Writer.FindWriteStart` | mtdutils/mtdutils.c:561-571 | the least block boundary at or after the position that was not skipped |
| `MtdWrite.OffsetsSorted` | mtdutils/mtdutils.c:398-405 | the recorded offsets are strictly increasing block boundaries |
| `MtdRead.Reader.ReadBlock` | mtdutils/mtdutils.c:288-327 | the next block that is not bad, or none is left |
| `MtdRead.Reader.ReadData` | mtdutils/mtdutils.c:329-360 | for every chunking the next bytes of the stream; it fails exactly when there are not so many |
| `MtdRead.WriteAll` | mtdutils/mtdutils.c:369-556 | writing any chunks and closing succeeds exactly when they fit, and the stream starts with them, padded |
| `MtdRead.RoundTrip` | mtdutils/mtdutils.c:288-556 | the same bytes come back in any other chunks, then zeros up to a block boundary |
| `Asn1.Context.DecodeLength` | asn1_decoder.cpp:80-104 | the length octets, with fewer than a word of them, or failure |
| `Asn1.Context.Get` | asn1_decoder.cpp:140-160 | a context for the contents, which lies inside its parent, exactly when tag and length are good |
| `Asn1.Context.ConstructedGet` | asn1_decoder.cpp:109-121 | the same for a constructed element, with its type |
| `Asn1.Context.GetString` | asn1_decoder.cpp:170-190 | the contents, if they are not empty |
| `Asn1.Context.SequenceNext` | asn1_decoder.cpp:162-168 | what follows the first element |
| `Asn1.Context.SkipAllConstructed` | asn1_decoder.cpp:123-134 | what follows all leading constructed elements, if anything does |
| `Pkcs7.ElementReadBack` | asn1_decoder.cpp:80-168 | an encoded element is read back, whatever follows it |
| `Pkcs7.OpenSigner` | verifier.cpp:72-79 | the context of the first signer lies inside the SignedData it was opened from |
| `Pkcs7.ReadPkcs7` | verifier.cpp:60-105 | the cursor walk computes what the structure holds |
| `Pkcs7.AttributesInTheWay` | verifier.cpp:80-91 | with signed attributes no signature is read |
| `Pkcs7.SignatureOfDer` | verifier.cpp:60-105 | from every DER SignedData exactly the first signer's signature, and nothing exactly when there are signed attributes or it is empty |
| `Footer.CheckFooter` | verifier.cpp:136-215 | passes exactly when footer and end record are good and no second marker follows |
| `Footer.InCommentIff` | verifier.cpp:153-162 | the signature lies in the comment, or in the end record, exactly when the footer does not announce more signature than comment, or record |
| `Footer.StartsBeforeRecord` | verifier.cpp:153-162 | a file that passes the checks although its signature would start before the end record |
| `Footer.VerifierAndMinzipAgree` | verifier.cpp:194-215 | the checks pass exactly when minzip stops at that end record and no marker stands where minzip does not look |
| `Footer.VerifyThenOpen` | minzip/Zip.c:212-222 | minzip finds the checked record, and what it reads there is signed |
| `SignedPackage.FindSignature` | verifier.cpp:136-273 | refuses exactly as the checks do, and takes the signature in the block that the footer points to, for all bytes before the length of the comment; outside exactly when that block starts before the end record, which is all that was read |
| `SignedPackage.PackageAccepted` | verifier.cpp:136-273 | a signed package with one end marker passes the checks, gives the signature of its signer, and is opened by minzip at the same end record with the entries of its directory |
| `LocalSocket.WritingEnds` | minadbd/sockets.c:145-163 | all bytes are written exactly when the answers in front of the first that stops the loop have room for them; else as many as they have room for, and that answer decides between waiting and closing |
| `LocalSocket.RetryMatters` | minadbd/sockets.c:266-286 | the loops of `local_socket_enqueue` and of the event function end alike, except when an interruption comes before all is written: the first then closes, the second goes on as if it had not been |
| `LocalSocket.InterruptedAlone` | minadbd/sockets.c:145-163 | one interrupted call closes the socket in the one and blocks in the other |
| `LocalSocket.CalmDrain` | minadbd/sockets.c:266-286 | without write errors draining never fails, wastes no answer that takes something, and stops early only for an answer that says so |
| `LocalSocket.Socket.WriteOut` | minadbd/sockets.c:145-163 | the loop writes exactly the bytes that the answers of the descriptor take, and ends as they say |
| `LocalSocket.Socket.Enqueue` | minadbd/sockets.c:130-181 | behind a queue the packet waits and nothing is written; else exactly what the descriptor takes is written, the rest is queued if it blocks, and the socket is closed if it fails, an interrupted call included |
| `LocalSocket.Socket.HandleWritable` | minadbd/sockets.c:256-310 | queue, descriptor and state are what draining packet by packet leaves; exactly one OKAY, when the queue is empty again and the socket open; a closing socket dies when all is written |
| `LocalSocket.Socket.HandleWrite` | minadbd/adb.c:352-363 | exactly one OKAY at once if all of the packet was written, none otherwise; what is written, queued and closed is as `local_socket_enqueue` does it |
| `LocalSocket.Socket.Close` | minadbd/sockets.c:220-254 | dies at once, or drains first if there is something queued |
| `LocalSocket.Run` | minadbd/sockets.c:130-310 | for every interleaving: sent followed by queued is accepted, armed exactly when queued; a host that waits has one OKAY per packet if all is written and one less if not; without write errors all that the host sends is accepted |
| `LocalSocket.Deliver` | minadbd/sockets.c:130-310 | and if the descriptor takes enough, then after as many writable events as it blocks everything is written, and a host that waits has its last OKAY |
| `Retouch.ShortFormDecoded` | minelf/Retouch.c:47-56 | the two-byte form means what it encodes |
| `Retouch.MediumFormDecoded` | minelf/Retouch.c:57-66 | the three-byte form means what it encodes |
| `Retouch.LongFormDecoded` | minelf/Retouch.c:67-79 | the eight-byte form means what it encodes, -1 included |
| `Retouch.Decoder.Decode` | minelf/Retouch.c:81-107 | the entry at the pointer, the pointer behind it, and the state for the next one |
| `Retouch.MaskedTwice` | minelf/Retouch.c:109-196 | masking with one offset and then another is masking with the second |
| `Retouch.MaskedSound` | minelf/Retouch.c:144-166 | masking leaves the list and the records as they are |
| `RetouchInfer.InferredIff` | minelf/Retouch.c:168-195 | after masking a file with at least one entry, inference reports a match exactly when the words put at overlapping places agree, and then the offset |
| `RetouchInfer.InferredAfterMasking` | minelf/Retouch.c:168-195 | so with no overlaps it reports the last offset as matched |
| `RetouchInfer.LongFileSound` | minelf/Retouch.c:109-143 | every list of entries in place is the list of some file |
| `RetouchInfer.OverlapSpoils` | minelf/Retouch.c:168-183 | files that are reported as mismatched right after they were masked, with any offset |
| `Retouch.MaskData` | minelf/Retouch.c:109-196 | masks and infers as the list says, on every file whose list lies in place, and on files without one |
| `BootMessage.WriteBack` | recovery.cpp:227-235 | the field holds as much of the message as fits |
| `BootMessage.GetArgs` | recovery.cpp:172-237 | arguments from command line, message or command file, in that order, and written back |
| `BootMessage.ReadBackIff` | recovery.cpp:185-236 | arguments are read back exactly when they are under a hundred, none is empty or has a newline, and they fit 1024 characters |
| `BootMessage.MessageIsRestorable` | recovery.cpp:185-200 | arguments that came from a message are always read back |
| `BootMessage.RebootsRepeat` | recovery.cpp:97-109 | every reboot repeats the command, whatever becomes of the command file |
| `BootMessage.FinishedHasNoArgs` | recovery.cpp:333-336 | after the message is cleared and the command file removed, no later recovery run gets any arguments |

## Left out

- SHA-1, RSA, ECDSA, bzip2 and zlib themselves: foreign code, used through the laws above.
- `BsdiffScan.FoundIsLongest`: one way only; if some suffix of old ends inside the query, whether a longest match is found depends on the places that the halving happens to compare.
- `Bspatch.ApplyTriple`: a negative length, which the source would hand to bzip2 as the size of a huge buffer, counts as an error, and lengths are not cut to the 32 bits of an `int`.
- `BsdiffFormat.Apply` and `ImagePatch.Rebuilt` on malformed patches: what the readers do with them is modelled as far as the sources define it, but round trips are stated for written patches only; a truncated compressed block, on which the source loops, counts as an error.
- `ImageRead.ReadImage`: truncated gzip members, on which the source reads past its buffer, end as failures; a stream that does not inflate ends as its own outcome because the source never returns from it.
- `Zipdiff.ReadZip`: starts behind the walk over the central directory and the sort by offset; misplaced entries, and entries that inflate to less than the directory says, end as outcomes of their own because the source goes on with lengths that wrap around or buffers that were not filled.
- `Zipdiff.DiffZips`: when a chunk loses its source, the source writes a length that was never set; the model stops there.
- `Imgdiff.DiffImages` and `Zipdiff.DiffZips`: a file in which some length does not fit its field is written as the source writes it, and only its pieces are claimed to be right.
- `ImagePatch.ApplyImagePatch`: the sink takes all it is given; short writes are not modelled there.
- MTD and EMMC targets of applypatch: that branch backs up the source even when the backup copy is in use, so the crash invariant is stated for regular files.
- `ApplyPatch.CrashSafe`: operations reach the disk in the order they are issued; caches that reorder them are not modelled. Source, target, new file and backup copy are distinct paths, except that source and target may be the same.
- `ApplyPatch.AgainDoesNothing`: stated for runs in which the target loads; a transient read error on a patched target starts the work again.
- `ApplyPatch.NeverLostIff`: stated for runs that find the source fit to be patched; with an older backup copy also for patches that do not apply to an empty file.
- Allocation failures, 32-bit overflow of table sizes, freeing of memory and logging.
- `HashTable.HashTable.Lookup`: masks with a power of two are written as remainders; `RoundUpPower2` is proved on machine words and `RoundedUp` on numbers.
- `MtdRead.RoundTrip`: needs blocks that are not reported bad to take writes; a block that wears out unreported is skipped by the writer but not by the reader. ECC counters stay still.
- mzExtractRecursive beyond the list of paths: creating directories, links and files.
- `Retouch.MaskData`: nothing is claimed when an entry reaches into the list itself, which the bounds check of the source lets through by up to three bytes.
- `BootMessage.GetArgs`: lines of the command file come as `fgets` gives them; a failing write of the message is not modelled.
- The reading half of adb sockets, transports and the remote side: the flow control proved here is all on the writing half.
- Verification of signatures against keys, the user interface, edify, roots, mounts and firmware: calls into cryptography, drawing and system calls without state of their own to keep.
