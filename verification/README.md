# What is verified here

Four parts of the loader and of its hooking library are modelled in Dafny, in the order of how
much rests on them.

1. **The virtual apk.** `ShadowZip::init` merges an installed apk with patch zips without copying
   either: it writes a table of partitions, a few rewritten local headers and a new central
   directory. `fread` and `fseek` then serve the result as one file. The records follow sections
   4.3.7, 4.3.12 and 4.3.16 of PKWARE's APPNOTE.TXT. The main result is `ShadowInit.Init`, from the
   bytes of the apk and the patches: it succeeds exactly when all of them parse and no two patch
   entries share a name that is not removed. Parsing the virtual apk with the loader's own parser then
   gives back the merged entries in order if and only if no name that a patch replaces occurs twice in
   the apk, there are fewer than 65536 entries, and the new end record does not spell its own
   signature twice; `ShadowLimits` has an input for each of the three failures. Without a repeated
   name each entry's header and data are in place too, the data that of its source.
   `ShadowRead` shows that reading it in any pieces gives these bytes, and `SnapshotCodec` that a
   later process reads the same partitions back from user.db. `ZipInput.ParsesExactly` says, byte by
   byte, which files the parser takes and what it gives for them.
2. **The red-black tree** of xhook/tree.h, as records in memory linked by addresses. A ghost tree
   and a path to the place under repair say what the links mean; the two fix-up loops are proved
   case by case against them.
3. **The ELF indexes and decoders**: SLEB128 (section 7.6 of DWARF 4), Android's grouped packed
   relocations, the System V hash table (gABI chapter 5, "Hash Table") and the GNU hash table.
4. **Stateful containers and the refresh protocol**: the hash map over intrusive lists and a node
   pool, one pass over the module map, and the refresh thread as a transition system over any number
   of threads, with every lock, unlock, wait and signal a step of its own.

Machine arithmetic is written out. `unsigned long` and pointers have 64 bits; the ELF decoders and
the GNU table take the word size as a parameter. Where two operands share no bits, a bitwise or is
written as a sum, and so is a left shift as a product; other bit operations are those of `Bits`.
Keys of the hash map are the 64-bit patterns of `intptr_t` values.

Memory is modelled as an arena where addresses matter: `RbTree.Records` holds the tree's records,
`MyList.Lists` all list heads, `Stdio.Stream` a file. Allocation, regular expressions, the text of
/proc/self/maps and the contents of files are parameters. What C leaves undefined appears as an
outcome of its own (`Undefined`) or as a precondition.

Where the code differs from what its names or comments suggest, the model follows the code:

- A name in removed_files is left out of the index of patch names, but a patch entry of that name is
  still appended (zip/shadow_zip.cpp:373-376, 413-424). `ShadowMerge.MergedName` says exactly when a
  removed name survives, and `ShadowLimits.RemovedStays` is a case.
- Nothing checks the apk for repeated names, and a removed name may be in several patches;
  `ShadowMerge.MergedNamesOnce` says exactly when the merged names are distinct. A repeated name that
  a patch replaces makes the code place one entry object twice (`ShadowMerge.OrderNoRepeat` says
  exactly when). The second placing reads the patch at the offset that the first one gave the entry in
  the virtual file, and both rows of the directory point to the last place (`ShadowPlaces.PlacedAgain`,
  `ShadowPlaces.Untouched`), so that parsing never gives back the merged entries
  (`ShadowRepeats.RepeatBreaks`); `ShadowLimits.NameTwice` is such an input.
- `fread` returns a count of bytes, not of items (zip/shadow_zip.cpp:590-596).
- `EndOfCentralDir::write` compares a count of items with a length (zip/ZipFile.cpp:1272).
- The refresh pass decides on the first hook whose pattern matches (xhook/xh_core.c:385-386), while
  `xh_core_hook_impl` looks at all of them. `RefreshPass.WantedVersusHooked` gives the exact relation
  and `RefreshPass.SkippedFile` a file for which they differ.
- `xh_core_clear` reads and writes the flags of the refresh thread without the mutex
  (xhook/xh_core.c:591-606). Over all runs its join is of a refresh thread that has not been joined and
  is awake if and only if no clear overlaps another clear or the creation of a refresh thread
  (`RefreshOverlap.SoundExactly`), and then it ends (`RefreshStop.JoinEnds`). An asynchronous refresh
  that finds the thread there may overlap with a clear.
- `xh_core_init_once` and `xh_core_init_async_once` set their first flag before the work is done and read
  it without the mutex (xhook/xh_core.c:506, 539), so that a call that comes in between is refused.
  `RefreshReasons.RefusedWhy` gives all reasons for a refusal, `RefreshEarly.RefusedEarly` is such a run.
- `MyMap32` divides a difference that already counts nodes by the size of a node
  (map/mymap32.cpp:25, 137), so that some heap nodes pass for pool nodes; `NodePool.PoolTest` says
  which. No pool node is ever lost, but free-list plus live pool nodes need not stay at max_size: `del`
  and `clean` gain a node for each heap node that passes, and `set` loses one when it takes such a node
  off the free list. Over all runs the total is kept if and only if no node the allocator gives passes
  the test (`NodePool.TotalKept`); `MyMap32.OneTooMany` builds a map with one too many.

## Model

| member | source | states |
|---|---|---|
| Bytes.GetPut | zip/ZipEntry.h:131-146 | a field value that getLongLE or getShortLE can give survives put and get; 4-byte fields are those below 2^31 or sign-extended from above |
| Bytes.PutGet | zip/ZipEntry.h:131-146 | any field bytes survive get and put, although getLongLE spreads the sign of an int over 64 bits |
| Bytes.GetFieldIs | zip/ZipEntry.h:131-146 | the number that two or four bytes are, least significant first; the top bit of four fills the upper half of 64 |
| Bytes.GetAllPutAll | zip/ZipEntry.h:131-146 | a whole record of fields is read back as written |
| Bytes.PutAllGetAll | zip/ZipEntry.h:131-146 | a record that was read is written back byte for byte |
| ZipFormat.ReadWrittenLocal | zip/ZipEntry.cpp:414-513 | a local header written before any other bytes is read back unchanged, name and extra field included |
| ZipFormat.WrittenReadLocal | zip/ZipEntry.cpp:414-513 | a local header that was read is rewritten byte for byte |
| ZipFormat.LocalBytes | zip/ZipEntry.cpp:481-513 | the bytes of a local header, field by field, in the order and widths of section 4.3.7 of APPNOTE.TXT |
| ZipFormat.ReadWrittenCentral | zip/ZipEntry.cpp:548-683 | a central directory entry is read back as written, name, extra field and comment included |
| ZipFormat.WrittenReadCentral | zip/ZipEntry.cpp:548-683 | a central directory entry that was read is rewritten byte for byte |
| ZipFormat.CentralBytes | zip/ZipEntry.cpp:639-683 | the same for a central directory entry, section 4.3.12 |
| ZipFormat.ReadWrittenEocd | zip/ZipFile.cpp:1213-1277 | the end record is read back as written, comment included |
| ZipFormat.WrittenReadEocd | zip/ZipFile.cpp:1213-1277 | an end record that was read is rewritten byte for byte |
| ZipFormat.EocdBytes | zip/ZipFile.cpp:1255-1277 | the bytes of the end record, section 4.3.16 |
| ZipRecords.ReadLocalHeader | zip/ZipEntry.cpp:414-475 | reading field by field at the code's offsets gives exactly the header of the format or fails, and stops right behind it |
| ZipRecords.WriteLocalHeader | zip/ZipEntry.cpp:481-513 | filling the buffer field by field appends exactly the header's bytes |
| ZipRecords.ReadCentralEntry | zip/ZipEntry.cpp:548-634 | the same for central directory entries, with all three trailing strings |
| ZipRecords.WriteCentralEntry | zip/ZipEntry.cpp:639-683 | appends exactly the entry's bytes |
| ZipRecords.ReadEndRecord | zip/ZipFile.cpp:1213-1250 | the end record, or failure when it or its comment is cut off |
| ZipRecords.WriteEndRecord | zip/ZipFile.cpp:1255-1277 | all bytes are written; success is reported exactly when the comment has at most one byte |
| ZipParse.FindSignature | zip/shadow_zip.cpp:97-101 | the backwards scan stops at the last place where the signature starts, or at -1 when there is none |
| ZipParse.InitFromCDE | zip/ZipEntry.cpp:37-75 | a directory entry and the local header it points at, leaving the file at the next entry; failure when either is bad or the offset cannot be sought |
| ZipParse.IsDirectoryName | zip/shadow_zip.cpp:159-167 | strlen and the last character say whether the name, up to its first NUL, is empty or ends in the byte 0x2f |
| ZipParse.ReadDirectory | zip/shadow_zip.cpp:148-171 | the loop yields the entries that are no directories, in order, with every early failure and the null-name case |
| ZipParse.FindEnd | zip/shadow_zip.cpp:61-113 | the end record found in the last 65557 bytes, or failure |
| ZipParse.Parse | zip/shadow_zip.cpp:46-192 | parse_apk as a whole is the function that `ZipInput.ParsesExactly` and the two results after it describe |
| ZipInput.DirectoryRow | zip/shadow_zip.cpp:160-168 | a row is left out exactly when its name, up to the first NUL, is empty or ends in 0x2f |
| ZipInput.RowsRead | zip/shadow_zip.cpp:148-171 | reading rows that lie one after the other, with their local headers in the file, keeps exactly those that name files, in order; a row without any name is undefined |
| ZipInput.ParsesExactly | zip/shadow_zip.cpp:46-192 | parse_apk succeeds if and only if the last spelling of 0x50 0x4b 0x05 0x06, at most 65557 bytes from the end, begins an end record of one disk whose offset leads to that many readable, named rows with a signature behind them; it gives the rows that name files, in order |
| ZipInput.PutTogether | zip/shadow_zip.cpp:46-192 | any bytes, a directory whose local headers are in the file, an end record with comment and trailing bytes of up to 65535 that spell no later signature: exactly the rows that name files |
| ZipInput.NoSignature | zip/shadow_zip.cpp:61-107 | without the signature in the last 65557 bytes parsing fails |
| ShadowLayout.TilesPush | zip/shadow_zip.cpp:248-273 | a partition added at the end keeps the partitions gapless and appends its bytes to the virtual file |
| ShadowLayout.TilesExtend | zip/shadow_zip.cpp:235-241 | growing the last partition instead appends the same bytes and keeps the partitions gapless |
| ShadowLayout.ImageKept | zip/shadow_zip.cpp:250-256 | appending to the file of changed headers changes no byte the existing partitions show |
| ShadowLayout.AddPaddingPads | zip/ZipEntry.cpp:196-225 | both branches of addPadding append that many zero bytes to the extra field and change nothing else |
| ShadowLayout.StoredIsAligned | zip/shadow_zip.cpp:217-226 | the padding computed for a stored entry puts its data on a multiple of four wherever the entry begins |
| ShadowLayout.RawPieceIs | zip/shadow_zip.cpp:211-267 | what an entry contributes, from its range of the file alone: all of it, or a padded header and the data |
| ShadowLayout.UnpaddedPiece | zip/shadow_zip.cpp:211-243 | for an entry that was read from the file that is its header, padded, followed by its data |
| ShadowLayout.Partitions.PushPadded | zip/shadow_zip.cpp:242-267 | the changed header and the entry's data become two partitions that show header bytes then data bytes |
| ShadowLayout.Partitions.AddEntry | zip/shadow_zip.cpp:208-276 | partitions stay gapless and end at (file, entry end); the virtual file grows by exactly what the entry contributes, whether or not ranges were merged |
| ShadowParse.ConcatAt | zip/shadow_zip.cpp:397-436 | each contribution lies right behind the ones before it |
| ShadowParse.BodyAt | zip/shadow_zip.cpp:397-424 | entry k's bytes stand in the virtual file at the offset init stores for it |
| ShadowParse.HeaderAndData | zip/shadow_zip.cpp:397-424 | at the relocated offset stands the entry's padded local header, and 30 bytes, the name and the extra field further on the compressed bytes of the source entry, with 16 more behind them if bit 3 of its flags is set |
| ShadowParse.MergedIsAligned | zip/shadow_zip.cpp:217-226 | a merged entry differs from its source in the offset and, if its compression method is 0, in at most three zero bytes at the end of the local extra field, with which its data begins on a multiple of four |
| ShadowParse.AllReadable | zip/shadow_zip.cpp:148-171 | the parser reads row k of the new directory back as the merged entry k |
| ShadowParse.ReadsRows | zip/shadow_zip.cpp:148-171 | it reads any stretch of rows, in order, and stops behind the last one |
| EndRecordScan.SpelledIs | zip/shadow_zip.cpp:437-442 | exactly which entry counts, directory sizes and offsets spell the signature a second time inside the new end record |
| EndRecordScan.ScanFinds | zip/shadow_zip.cpp:97-113 | on a file ending with the record the scan finds it, unless the record spells the signature again; then nothing is found |
| ShadowParse.VirtualParses | zip/shadow_zip.cpp:46-192 | parsing the virtual apk gives exactly the merged entries in order, if and only if there are fewer than 65536 and the end record spells its signature once |
| ShadowLimits.TooMany | zip/shadow_zip.cpp:437-440 | 65536 good entries in a small file that the parser cannot read back |
| ShadowLimits.SpelledAgain | zip/shadow_zip.cpp:97-101 | one good entry whose size makes the new end record spell the signature again; parsing fails |
| ShadowLimits.NameTwice | zip/shadow_zip.cpp:397-412 | an apk with a name twice that a patch replaces: everything loads and can be laid out, and parsing does not give back the merged entries |
| ShadowLimits.RemovedStays | zip/shadow_zip.cpp:373-376 | a removed name that a patch brings is in the merged directory |
| ShadowLimits.RemovedTwice | zip/shadow_zip.cpp:373-376 | a removed name that two patches bring is there twice |
| ShadowMerge.PatchRefsAre | zip/shadow_zip.cpp:413-424 | the second pass runs over every patch entry once |
| ShadowMerge.IndexedNotShared | zip/shadow_zip.cpp:368-378 | an index of patch names exists only when no name outside the removed set is shared by two patch entries |
| ShadowMerge.FirstPassNames | zip/shadow_zip.cpp:397-412 | the first pass yields the apk's names without the removed ones, in apk order |
| ShadowMerge.UsedWhen | zip/shadow_zip.cpp:407-409 | a patch entry is used by the first pass exactly when the apk has its name and the name is not removed |
| ShadowMerge.MergedNames | zip/shadow_zip.cpp:397-424 | names of the merged directory, in order: the apk's kept names, then the patch names that replace none of them |
| ShadowMerge.MergedName | zip/shadow_zip.cpp:373-376 | a removed name is in the merged directory exactly when a patch brings it |
| ShadowMerge.MergedNamesOnce | zip/shadow_zip.cpp:397-424 | each merged name occurs once if and only if no name the apk keeps occurs twice in it and no two patch entries have one name, removed names included |
| ShadowMerge.MergedOnce | zip/shadow_zip.cpp:397-424 | with distinct apk names and no patch name removed, each name of (apk - removed) + patches occurs exactly once |
| ShadowMerge.PatchWins | zip/shadow_zip.cpp:407-408 | an apk entry is used only where no patch has a version of it |
| ShadowMerge.OrderNoRepeat | zip/shadow_zip.cpp:397-424 | every entry object is placed at most once if and only if no patched name occurs twice in the apk, which the code does not check |
| ShadowMerge.OrderInLists | zip/shadow_zip.cpp:397-424 | the merged order only holds entries of the apk and of the patches, repeated ones included |
| ShadowLoad.IndexPatch | zip/shadow_zip.cpp:360-378 | one patch file's names enter the index, or two entries share a name that is not removed |
| ShadowLoad.LoadPatches | zip/shadow_zip.cpp:348-379 | all patches parsed and indexed; failure only for a patch that does not parse or a shared name |
| ShadowLoad.IndexIs | zip/shadow_zip.cpp:346-377 | the patches allow at most one index of names |
| ShadowLoad.ParsedGood | zip/shadow_zip.cpp:148-171 | every entry that parse_apk returns is good for laying out once its data lies in the file and its extra field has room |
| ShadowPlaces.LaidOnce | zip/shadow_zip.cpp:397-424 | when no entry is placed twice each is still as it was read when its turn comes, and the result is the body and the directory of the merged entries |
| ShadowPlaces.PlacedAgain | zip/shadow_zip.cpp:407-411 | an entry placed again shows what its own file has at the virtual offset of the placing before |
| ShadowPlaces.Untouched | zip/shadow_zip.cpp:407-411 | until then, and in the directory, the entry has the offset of its last placing |
| ShadowRepeats.ParsedRows | zip/shadow_zip.cpp:148-171 | when parsing gives as many entries as were placed, they have the fields of the entry objects as they are in the end, repeated ones included |
| ShadowRepeats.RepeatBreaks | zip/shadow_zip.cpp:397-424 | whenever an entry object is placed twice, parsing the virtual apk does not give back the merged entries |
| ShadowInit.PlaceEntry | zip/shadow_zip.cpp:408-411 | one entry placed as its object is now; the object gets padding and offset, all others stay |
| ShadowInit.PlaceFirst | zip/shadow_zip.cpp:397-412 | the first pass lists and lays out the apk's entries, patched ones replaced, and marks what it used |
| ShadowInit.PlaceFile | zip/shadow_zip.cpp:415-423 | the second pass lists and lays out a patch file's unmarked entries |
| ShadowInit.WriteDirectory | zip/shadow_zip.cpp:431-436 | the new directory file holds the records of the listed entry objects as they are in the end |
| ShadowInit.LayOut | zip/shadow_zip.cpp:388-448 | the partitions tile the virtual file exactly, and it is the placed entries, their directory and the end record, repeated entries included |
| ShadowInit.Init | zip/shadow_zip.cpp:305-448 | from the files: success exactly when there is a patch, all parse and no kept name is shared; parsing the virtual apk gives the merged entries exactly when no replaced name is repeated, they are fewer than 65536 and the signature is spelled once; headers and data are in place |
| ShadowRead.ImageAt | zip/shadow_zip.cpp:571-586 | a partition's bytes stand at its place in the virtual file |
| ShadowRead.ShadowZip.constructor | zip/shadow_zip.cpp:508-527 | after fopen the position is 0 and only slot 0 is open |
| ShadowRead.ShadowZip.Fseek | zip/shadow_zip.cpp:529-548 | the position moves to the target exactly when it lies in [0, end of file]; a failed seek changes nothing |
| ShadowRead.ShadowZip.Rewind | zip/shadow_zip.cpp:556-559 | back to 0, nothing else changed |
| ShadowRead.ShadowZip.PrepareFile | zip/shadow_zip.cpp:651-682 | slot i always holds a handle of file i, and besides slot 0 at most the requested one stays open |
| ShadowRead.ShadowZip.ReadPart | zip/shadow_zip.cpp:577-586 | one round reads exactly the overlap of the request with a partition |
| ShadowRead.ShadowZip.Advance | zip/shadow_zip.cpp:571-590 | a round appends the next bytes of the virtual file and moves the position behind them |
| ShadowRead.ShadowZip.Fread | zip/shadow_zip.cpp:561-598 | exactly the bytes [pos, min(pos + size * nmemb, end)) of the virtual file, a count of bytes, and the position behind them; nothing when nmemb cast to int is not positive |
| ShadowRead.OutputApk | zip/shadow_zip.cpp:278-303 | reading 1024 bytes at a time until nothing comes rebuilds the virtual file |
| SnapshotCodec.Save | bootstrap.cpp:211-217 | the seven parts are written in order |
| SnapshotCodec.SerialStringVector | serial_utils.h:42-50 | a count and the strings, one after the other |
| SnapshotCodec.UnserialString | serial_utils.h:91-103 | a string written before any other bytes is read back and exactly its bytes are consumed, up to 4096 bytes; whatever is read was written like that |
| SnapshotCodec.UnserialStringVector | serial_utils.h:105-113 | the same for a vector of strings |
| SnapshotCodec.PartitionBack | serial_utils.h:121-130 | a FilePartitionInfo is the same after a copy through bytes |
| SnapshotCodec.UnserialPartitionVector | serial_utils.h:115-132 | the same for a vector of partitions |
| SnapshotCodec.Load | bootstrap.cpp:289-306 | a snapshot comes back from exactly the files that begin with its bytes, which are consumed; a file that does not begin with the bytes of 5460 is an error |
| SnapshotCodec.SaveThenLoad | bootstrap.cpp:211-217 | a later process gets the same paths, file list, partitions and end offset, with nothing left over |
| CString.LessIsTotalOrder | xhook/xh_core.c:78-81 | the order that strcmp puts on pathnames is a strict total order |
| CString.StrcmpZero | xhook/xh_core.c:78-81 | strcmp is 0 exactly for equal strings |
| CString.LessExactly | xhook/xh_core.c:78-81 | a pathname is smaller exactly when it is a proper beginning of the other, or has the smaller character at the first difference |
| RbShape.RotatedAt | xhook/tree.h:343-381 | the pointer writes of a rotation turn the tree in memory into the rotated one and touch only its own records |
| RbShape.RotationOrder | xhook/tree.h:343-381 | a rotation keeps the order of the records |
| RbTree.RbHead.RotateLeft | xhook/tree.h:343-361 | memory and root after the macro, and the node it leaves in tmp |
| RbTree.RbHead.RotateRight | xhook/tree.h:363-381 | the mirror image |
| RbInsert.LoopReads | xhook/tree.h:411-417 | inside the insert loop the grandparent exists and is black, and the links the loop reads are those of the tree |
| RbInsert.RecolorTree | xhook/tree.h:416-423 | with a red uncle, recolouring moves the single red violation two levels up and keeps order and black heights |
| RbInsert.InnerTree | xhook/tree.h:424-429 | an inner grandchild is turned outwards, nothing else changes |
| RbInsert.OuterTree | xhook/tree.h:430-431 | the final rotation of insertion repairs the tree |
| RbTree.RbHead.InsertColor | xhook/tree.h:408-450 | the insertion fix-up ends with every red-black rule restored and the order unchanged |
| RbTree.RbHead.Insert | xhook/tree.h:598-626 | a new key is added, an existing one leaves tree, root and memory untouched and its record is returned |
| RbTree.RbHead.Find | xhook/tree.h:629-645 | a record is found exactly when the key is in the tree |
| RbTree.RbHead.NFind | xhook/tree.h:647-665 | the first record not below the key, or NULL when all are below |
| RbTree.RbHead.Next | xhook/tree.h:668-688 | the in-order successor, or NULL at the end |
| RbTree.RbHead.Prev | xhook/tree.h:690-709 | the in-order predecessor, or NULL at the start |
| RbTree.RbHead.MinMax | xhook/tree.h:711-724 | the first or the last record, or NULL for an empty tree |
| RbWalk.NextThenPrev | xhook/tree.h:668-709 | RB_PREV undoes RB_NEXT and the other way round |
| RbSearch.DescentEnds | xhook/tree.h:604-612 | a search that ends at an empty place proves the key absent |
| RbSearch.BelongsThere | xhook/tree.h:613-624 | a record with that key attached at the empty place is in its place of the order |
| RbSplice.SplicedOrder | xhook/tree.h:535-538 | cutting out a node with at most one child removes exactly it from the order |
| RbSplice.SuccessorOrder | xhook/tree.h:539-572 | putting the successor in a node's place removes exactly the node from the order |
| RbSplice.SubstitutedAt | xhook/tree.h:558-568 | copying the node's links to its successor gives the tree with the successor in its place, parents and children agreeing |
| RbRemove.LoopReads | xhook/tree.h:453-470 | in the removal loop the sibling is never NULL, and all links and colours it reads are those of the tree |
| RbRemove.RedSiblingTree | xhook/tree.h:458-462 | a red sibling is rotated above the parent; the missing black stays where it was |
| RbRemove.BlackNephewsTree | xhook/tree.h:463-469 | recolouring the sibling moves the missing black one level up |
| RbRemove.NearNephewTree | xhook/tree.h:471-481 | the near red nephew is turned to the far side |
| RbRemove.FarNephewTree | xhook/tree.h:482-489 | the final rotation supplies the missing black |
| RbTree.RbHead.RemoveColor | xhook/tree.h:452-528 | the removal fix-up terminates with every red-black rule restored and the order unchanged |
| RbTree.RbHead.Remove | xhook/tree.h:530-595 | exactly the given record leaves the tree; search order, colours, black heights and links all stay right |
| RbWalk.BlackHeightBounds | xhook/tree.h:54-61 | height against black height, and black height against the number of records |
| RbWalk.HeightBound | xhook/tree.h:61-62 | 2^height <= (n + 1)^2, which is the promised height of at most 2 lg (n + 1) |
| RbWalk.EraseFirst | xhook/tree.h:748-751 | removing the first record leaves the rest, so a safe walk that removes goes through all in order |
| RefreshPass.IsWanted | xhook/xh_core.c:364-390 | the pre-filter loop with its jumps, against the rule it follows |
| RefreshPass.WantedVersusHooked | xhook/xh_core.c:364-390 | the pre-filter lets a file through exactly when xh_core_hook_impl would hook something in it and the first matching hook is not itself ignored |
| RefreshPass.SkippedFile | xhook/xh_core.c:385-386 | a file that the hooks want and the pre-filter drops |
| RefreshPass.FirstLineWins | xhook/xh_core.c:393-446 | after a pass the files are those of the lines that entered, with their base addresses, and no two entered lines share a file |
| RefreshPass.FirstAcceptedEnters | xhook/xh_core.c:393-446 | a file's first accepted line enters, memory permitting |
| RefreshPass.HookedOnce | xhook/xh_core.c:412-446 | xh_core_hook runs exactly once for each file that is new or whose base changed, and for no other |
| RefreshPass.Core.Take | xhook/xh_core.c:396-399 | the record leaves the old tree, everything else stays |
| RefreshPass.Core.Put | xhook/xh_core.c:401-410 | RB_INSERT into the refreshed tree, by the record's file |
| RefreshPass.Core.Renew | xhook/xh_core.c:396-418 | a known file moves to the refreshed tree and is hooked again exactly when its base changed; the branch for a repeated record is dead |
| RefreshPass.Core.Create | xhook/xh_core.c:420-446 | an unknown file gets a record and a hook, unless this pass has it already; then the record is freed |
| RefreshPass.Core.FreeStale | xhook/xh_core.c:451-460 | the safe walk frees every record of the old tree once, in order, and leaves it empty |
| RefreshPass.Core.Refresh | xhook/xh_core.c:312-471 | one pass: the tree holds the first accepted line of each file, the hook calls are exactly those due, and the records in memory are exactly those of the tree |
| RefreshLines.WantedExactly | xhook/xh_core.c:364-390 | the pre-filter lets a path through exactly when the first hook that matches it is subject to no ignore rule |
| RefreshLines.AcceptedExactly | xhook/xh_core.c:334-391 | a line is taken, for a path and a base, exactly when it is readable, private, at offset 0, shows the path behind white space and before a newline or the end, the path is not empty and does not start with a bracket, a hook wants it and an ELF header is at the base |
| RefreshLines.PassExactly | xhook/xh_core.c:393-446 | a file is known with a base after the pass exactly when the first line taken for it that has its record, or the memory for one, maps it there |
| RefreshLines.HooksExactly | xhook/xh_core.c:412-446 | xh_core_hook runs for exactly these files, where they were not known or known with another base, once each |
| RefreshLines.HookedExactly | xhook/xh_core.c:259-285 | the symbols hooked in a file are those of all matching hooks without an ignore rule; returning at a rule for all symbols leaves out none |
| RefreshThread.StepsLock | xhook/xh_core.c:473-624 | every step takes and releases the mutexes exactly at the code's lock and unlock calls |
| RefreshThread.RunLocked | xhook/xh_core.c:473-624 | over every run the mutexes are held by exactly the threads between their lock and unlock |
| RefreshThread.PassesNeverOverlap | xhook/xh_core.c:494-497 | no two threads are in a pass or in the freeing part of clear at once, clear included |
| RefreshThread.RunJoinable | xhook/xh_core.c:591-606 | the thread that clear joins is a refresh thread that exists |
| RefreshStop.RunInv | xhook/xh_core.c:473-624 | flags, refresh thread and waiting clear agree over every run in which no clear overlaps another or the creation of a refresh thread |
| RefreshStop.JoinIsFirst | xhook/xh_core.c:599-603 | in such a run clear joins the refresh thread, which no one has joined before, is told to stop and is awake |
| RefreshStop.JoinEnds | xhook/xh_core.c:599-603 | in such a run the join ends: the refresh thread has ended by the time it has taken the few steps it needs |
| RefreshOverlap.JoinedTwice | xhook/xh_core.c:594-603 | a run whose only overlap is of two clears, in which the second is about to join a thread that has been joined |
| RefreshOverlap.WaitsForSleeper | xhook/xh_core.c:594-604 | a run whose only overlap is of a clear with the creation of a refresh thread; the next clear joins a sleeping thread that its signal did not wake |
| RefreshOverlap.SoundExactly | xhook/xh_core.c:591-606 | over all runs with or without these two overlaps the join of clear is sound if and only if there is neither |
| RefreshThread.NoLongWait | xhook/xh_core.c:473-624 | waits for mutexes and joins never form a chain of four |
| RefreshThread.NoWaitCycle | xhook/xh_core.c:473-624 | in no reachable state do threads wait for each other in a circle |
| RefreshRequests.RunInv | xhook/xh_core.c:473-589 | the invariant of the request flag holds over every run without clear |
| RefreshRequests.NoRequestLost | xhook/xh_core.c:480-491 | a request after the latest start of a pass is pending or taken by a worker about to start one, and never pending while the worker sleeps unsignalled |
| RefreshRequests.WorkerProgress | xhook/xh_core.c:479-498 | while a request waits every step of the worker brings a pass nearer |
| RefreshRequests.OthersDoNotDelay | xhook/xh_core.c:562-589 | no step of another thread takes it further away |
| RefreshRequests.PassComes | xhook/xh_core.c:473-589 | over every run without clear, a waiting request is followed by the start of a pass by the time the worker has taken the steps up to one |
| RefreshCalls.AsyncCall | xhook/xh_core.c:562-579 | over every run an asynchronous call that has returned found one of its two flags false, or has raised the request flag and signalled in one critical section, waking a sleeper if there was one |
| RefreshCalls.SyncCall | xhook/xh_core.c:562-586 | a synchronous call that has returned found the flag false, or has run a whole pass of its own with the other mutex held |
| RefreshCalls.CallIsServed | xhook/xh_core.c:473-589 | in a run without clear, after an asynchronous call that found both flags true a pass starts later than the call raised the flag, by the time the refresh thread has taken seven steps after the call |
| RefreshReasons.PassAnswers | xhook/xh_core.c:482-492 | over every run the refresh thread takes the flag down only after some call has raised it, and no one has taken it down since: it runs no more passes than there were requests |
| RefreshReasons.RefusedWhy | xhook/xh_core.c:504-573 | in a run without clear a call finds a flag false only when the handler could not be installed or a thread not created, or another thread is still between setting the two flags |
| RefreshReasons.FirstOnly | xhook/xh_core.c:504-560 | in such a run the handler is installed and the thread created by the first thread that comes there, and no other |
| RefreshReasons.RunRunning | xhook/xh_core.c:546-553 | in such a run the running flag is only up with a refresh thread there or about to be created |
| RefreshEarly.RefusedEarly | xhook/xh_core.c:506-531 | a run in which a call is refused although nothing fails: it reads the first flag before the second is set |
| RefreshClear.ClearCall | xhook/xh_core.c:591-645 | over every run a clear that has returned has stopped, signalled and joined the refresh thread if it found one to be there, has taken all flags down and has freed the records |
| RefreshClear.ClearDoes | xhook/xh_core.c:591-645 | what these steps do, and which mutexes are held at them |
| RefreshRequests.HoldersRun | xhook/xh_core.c:473-589 | a thread that holds a mutex is never itself waiting |
| Sleb128.ValueOfEncode | xhook/xh_elf.c:110-134 | every signed number is the value of its encoding (section 7.6 of DWARF 4) |
| Sleb128.ValueOfOne | xhook/xh_elf.c:110-134 | a last byte below 64 is itself, one from 64 is 128 less |
| Sleb128.ValueCons | xhook/xh_elf.c:110-134 | a byte with the continuation bit adds its low seven bits to 128 times the rest |
| Sleb128.SignExtended | xhook/xh_elf.c:127-130 | or-ing in the sign at the final shift is the number modulo 2^width |
| Sleb128.Decoder.Next | xhook/xh_elf.c:110-134 | the word of the number that lies next, with its bytes consumed, or failure when the input ends inside it |
| Sleb128.RoundTrip | xhook/xh_elf.c:110-134 | decoding undoes encoding for every word-sized signed number, whatever follows |
| PackedReloc.Iterator.Init | xhook/xh_elf.c:159-171 | count and first offset of a well-formed table |
| PackedReloc.Iterator.ReadGroupFields | xhook/xh_elf.c:173-205 | a group's size, flags and shared fields, with running offset and addend, for all flags; a shared addend in a table without addends is an error |
| PackedReloc.Iterator.ReadItem | xhook/xh_elf.c:219-239 | one relocation's own fields, in machine arithmetic |
| PackedReloc.Iterator.Next | xhook/xh_elf.c:207-255 | the next relocation of the table, or NULL after the last |
| PackedReloc.ReadAll | xhook/xh_elf.c:1031-1032 | iterating over any well-formed table yields its relocations in order and then stops |
| PackedReloc.WriteEncodes | xhook/xh_elf.c:136-157 | every grouping that fits has such a table, so grouped relocations survive writing and iterating |
| PackedTables.TableMeans | xhook/xh_elf.c:154-157 | what numbers a group consists of by the bits 1, 2, 4 and 8 of its flags, and that they are the relocations whose offsets and addends are the running sums, in closed form |
| PackedTables.ReadTable | xhook/xh_elf.c:1031-1032 | iterating over a table of such numbers yields exactly these relocations |
| Bits.MaskTest | xhook/xh_elf.c:381-387 | (word & mask) == mask exactly when the word has both bits |
| ElfHash.FoldsAgree | xhook/xh_elf.c:305-310 | folding the top nibble without testing it is the gABI's folding, and leaves 28 bits |
| ElfHash.Hash | xhook/xh_elf.c:301-313 | xh_elf_hash is the gABI's hash function on every string, below 2^28 after each character |
| ElfHash.GabiHashBits | xhook/xh_elf.c:305-310 | one character more: 16 times the hash plus the character in 32 bits, the top four bits folded into bits 4 to 7 and cleared |
| ElfHash.GabiHashIs | xhook/xh_elf.c:301-313 | as long as the characters as digits of 16 stay below 2^28 they are the hash, which is so for six characters below 128 (`ElfHash.FewCharacters`) |
| ElfHash.HashTable.Lookup | xhook/xh_elf.c:355-374 | on a well-formed table the chain walk ends, and finds an index of the name exactly when some symbol has it |
| ElfHash.ComputeGnuHash | xhook/xh_elf.c:316-325 | the hash of a name c0 .. c(n-1) is 5381 * 33^n + c0 * 33^(n-1) + .. + c(n-1), modulo 2^32 |
| ElfHash.GnuTable.NotFiltered | xhook/xh_elf.c:380-387 | the Bloom filter gives no false negatives |
| ElfHash.GnuTable.ChainStep | xhook/xh_elf.c:395-410 | the chain walk stays in its bucket, and when the end bit stops it no later symbol has the name |
| ElfHash.GnuTable.LookupDefined | xhook/xh_elf.c:376-413 | the first defined symbol of the name, as a scan would find it |
| ElfHash.GnuTable.LookupUndefined | xhook/xh_elf.c:415-430 | the first undefined symbol of the name |
| ElfHash.GnuTable.Lookup | xhook/xh_elf.c:432-437 | an index exactly when a scan of all symbols finds one, a defined symbol before an undefined one |
| ElfHash.FilterAdmits | xhook/xh_elf.c:380-387 | a filter built from a list of hashes lets each of them through |
| ElfHash.BuildWellFormed | xhook/xh_elf.c:376-413 | every list of symbols grouped by bucket has a well-formed table |
| HashExamples.SysVTable | xhook/xh_elf.c:355-374 | a table of three symbols, word by word |
| HashExamples.GnuTableOfThree | xhook/xh_elf.c:376-413 | the same for the GNU table, filter included |
| MyList.RingInsert | map/mylist.h:24-30 | four pointer writes put an element between two neighbours of a ring and keep both directions right |
| MyList.RingRemove | map/mylist.h:65-80 | two pointer writes take an element out |
| MyList.Lists.ListAdd | map/mylist.h:40-43 | the element comes first in its list, all other lists unchanged |
| MyList.Lists.ListAddTail | map/mylist.h:53-56 | the element comes last |
| MyList.Lists.ListDel | map/mylist.h:77-80 | exactly the element leaves its list; doing it once more changes nothing |
| MyList.Lists.ListEmpty | map/mylist.h:96-99 | whether the list has no element |
| NodePool.PoolTest | map/mymap32.cpp:137-138 | exactly which distances from the pool pass the test, those of all pool nodes among them |
| Bits.LowBits | map/mymap32.cpp:84-84 | masking a key with hash_size - 1 is the remainder |
| MyMap32.MyMap32.Init | map/mymap32.cpp:56-80 | the smallest sufficient power of two, all lists rings, all pool nodes free |
| MyMap32.MyMap32.FindNode | map/mymap32.cpp:82-94 | walking one bucket finds the key's node exactly when the key is in the map |
| MyMap32.MyMap32.Find | map/mymap32.cpp:82-94 | the map's value for the key, or false |
| MyMap32.MyMap32.Set | map/mymap32.cpp:96-125 | the map with the key set; false exactly when a value was overwritten; a new node comes first; a node is lost to the pool total exactly when the head of the free list is a heap node |
| MyMap32.MyMap32.Del | map/mymap32.cpp:127-149 | the map without the key; true exactly when it was there; a node is gained exactly when the key's node is a heap node that passes the pool test |
| MyMap32.MyMap32.Discard | map/mymap32.cpp:137-142 | the node goes to the free list or is deleted, by the pool test, and no pool node is ever deleted |
| MyMap32.MyMap32.Clean | map/mymap32.cpp:17-40 | an empty map, although each link is taken out twice; one node gained for each heap node in it that passes the pool test |
| MyMap32.MyMap32.First | map/mymap32.cpp:152-159 | the node added last, or none |
| MyMap32.MyMap32.Next | map/mymap32.cpp:161-169 | the node behind it in the link list, or none |
| MyMap32.MyMap32.Traverse | map/mymap32.cpp:152-169 | first and next meet every live node once |
| MyMap32.MyMap32.IsEmpty | map/mymap32.cpp:171-174 | whether the map is empty |
| MyMap32.MyMap32.Count | map/mymap32.cpp:176-179 | the number of keys |
| MyMap32.PoolConserved | map/mymap32.cpp:135-142 | every pool node is in the map or free, once; the two counts make up max_size exactly while no heap node is on the free list |
| MyMap32.MyMap32.Conserved | map/mymap32.cpp:135-142 | the same for a map object, and that the two counts are its total |
| NodePool.SetTotal | map/mymap32.cpp:108-122 | what set does to the total of free and live pool nodes |
| NodePool.DelTotal | map/mymap32.cpp:133-146 | what del does to it |
| NodePool.CleanTotal | map/mymap32.cpp:19-30 | what clean does to it |
| NodePool.RunKeepsTotal | map/mymap32.cpp:17-149 | over any run of set, del and clean after init the total stays max_size while no node from the allocator passes the pool test |
| NodePool.TotalKept | map/mymap32.cpp:17-149 | for nodes at given places that holds over all runs if and only if none of these places outside the pool passes |
| NodePool.PassingGains | map/mymap32.cpp:137-140 | a run that ends with one node too many |
| MyMap32.Replay | map/mymap32.cpp:17-149 | any run of calls on the map itself, with the total kept under that condition |
| MyMap32.OneTooMany | map/mymap32.cpp:137-140 | a map brought to that state by its own methods |

## Left out

- ShadowInit.Init: asks that every entry of every file lies inside it and has room for padding in its extra field, and that the files and the result are shorter than 2^31 bytes; parse_apk checks none of this. When a replaced name is repeated, the entry's range at its new offset must lie in its file too.
- ShadowInit.Init: the order of the patch files is that of the directory listing, which is a parameter, as is the set of names read from removed_files.txt.
- MyMap32.MyMap32.FindNode: find, set and del have three copies of this loop; the model has one.
- RbTree.RbHead.Insert: RB_AUGMENT expands to nothing here and is not modelled.
- PackedReloc.Iterator.Next: a group of size 0 in a packed table makes the iterator take the next group's header for a relocation; well-formed tables have none.
- SnapshotCodec.UnserialPartitionVector: on a 32-bit target the size of a vector of 2^32 / 40 partitions or more wraps; the model fails there.
- SnapshotCodec.UnserialString: a string longer than the 4096-byte buffer is an undefined outcome.
- `ShadowZip::fgets` hands the caller's size to the source file without stopping at the partition's end, so it does not serve the virtual file; not modelled.
- Failing opens, short writes and failing reads of the files behind the virtual apk: the model's files open and hold what they should.
- The data descriptor is carried along as 16 bytes behind the data; its fields are never read by this code.
- The plain relocation iterator, which steps before it returns, and what is done with each relocation.
- Locks around the shadow zip's global data: the guards are temporaries that do not outlive their statement; the operations are modelled one after another.
- `MyMapStr`, which repeats `MyMap32` with string keys (it refuses the empty key, and set always reports success otherwise), and its hash.
- RefreshStop.JoinEnds: asks that no clear overlaps another clear or the creation of a refresh thread; which of the overlapping runs still end well is left open.
- What `xh_core_clear` frees besides the tree's records, and what the signal handler does; adding it may fail.
- Spurious failures of pthread calls other than pthread_create.
- The uninstantiated splay trees and the queue macros; hook lists are sequences.
- DOS times, dumps, `compareHeaders`, which only warns, and `initFromExternal`.
- The commented-out `ZipFile` class.
- JNI, il2cpp, mmap and file-descriptor wrappers, and copying of libraries.
