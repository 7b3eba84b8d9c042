# Magisk core algorithms, modelled and verified

This project models the parts of Magisk's native code that are algorithms rather than system calls, and proves what
they are for:

- **Magic mount.** Module directories are merged into a ranked tree of nodes, the tree is rewritten against the real
  file system, and the result is executed as bind mounts (`NodeTree`, `MagicMount`, `MountView`, on the file system of
  `FileTree`).
- **cpio.** The reader and writer of the "New ASCII Format" of cpio(5), and the ramdisk backup with its inverse
  (`NameOrder`, `CpioFormat`, `CpioRoundTrip`, `CpioBackup`, `CpioArchive`).
- **Codec streams.** The multi-member gzip decoder (section 2.2 of RFC 1952), the chunking output stream, and the
  legacy LZ4 frame built on it (`GzipStream`, `ChunkStream`, `Lz4Legacy`).
- **SELinux policy.** The access vector table and its rules, ioctl permission sets, the statement language, and
  printing and reloading a table (`AvTable`, `AvRules`, `XpermRules`, `XpermExpansion`, `XpermText`, `PolicyText`,
  `PolicyPrint`, `PolicyReload`).
- **Concurrency.** The hand-off thread pool and the log pipe, as state machines over all interleavings (`ThreadPool`,
  `LogPipe`).
- **Layout, scanning and lifecycle.** Boot image layout, in-place pattern removal, command line parsing, payload
  extraction from files and pipes, and the boot stages (`BootImage`, `PatternRemoval`, `Cmdline`, `Payload`, `BootStages`).

Objects the code updates in place are classes with `modifies` clauses; loops over variables are methods with
invariants, each proved equal to a specification function; what the code promises is then proved about these functions
for all inputs, runs or reachable states. System calls, codecs, hashing, clocks and the order in which a directory or
hash table is listed are parameters, or are left free so that the results hold for every choice.

Where an expected property is false of the code, the code is modelled as it is, a lemma gives a concrete failing case,
and the property is proved to hold exactly under a condition that can be checked beforehand:

- The mounted view is the intended overlay unless something fails (`Fails`): a device node, fifo or socket in a directory
  that has to be rebuilt on tmpfs, a module's file over a directory of the device, or the reverse
  (`SpecialFileIsLost`, `ClashIsNotShown`).
- `restore` after `backup` returns the original unless nothing differed, a saved name collides with the names the
  backup itself uses, or an added name is not one `rm` finds again (`Recoverable`; `OneFileLost`, `FileAndXzLost`). The
  help text and comments do not mention these cases.
- `~{ a b }` in an ioctl rule should cover all commands but the listed ones; each complement discards the one before,
  so this holds exactly if the last range contains the others (`ComplementListFails`). Numbers written with `0x` are read
  as decimal, so that the example of the help text covers everything but zero (`HelpTextComplement`). The single value 0
  is documented to clear all rules; the code makes the rule cover every command (`ZeroDoesNotClear`).
- A wildcard source in an allow rule reaches exactly the types that have an attribute (`WildcardMissesType`).
- The thread pool loses a task exactly when a call swaps its task in while another is pending, which overlapping calls
  or a spurious wakeup of the waiting caller make possible (`OverlapLosesTask`, `SpuriousLosesTask`).
- A repacked boot image parses back to its components exactly if the files fit the size fields of the header
  (`MissingFileNotRecovered`).
- However its input is cut, the LZ4 decoder stays inside its buffer exactly if no size word is zero while bytes follow
  it and none exceeds the buffer while more bytes follow than the buffer holds (`StaysInside`; `ZeroSizeWord`).

## Model

| member | source | states |
|---|---|---|
| NodeTree.FirstMaximalRankWins | native/src/core/node.hpp:216-243 | For every sequence of nodes inserted under one name the first of maximal rank survives, with the file-type, exist and replace bits of the very first node |
| NodeTree.DirTable.Insert | native/src/core/node.hpp:146-150 | A node is accepted exactly if the name is free or the existing node has a lower rank, and the table changes only at that name |
| NodeTree.DirTable.Extract | native/src/core/node.hpp:136-144 | Returns and removes the child, or returns nothing and changes nothing |
| NodeTree.DirTable.InsertSequence | native/src/core/node.hpp:215-243 | Inserting a whole sequence in place ends in the winner of the sequence |
| NodeTree.CollectModuleFiles | native/src/core/module.cpp:93-126 | The directory scan, in whatever order entries are listed, builds the merged tree |
| NodeTree.CollectModuleEntry | native/src/core/module.cpp:104-124 | One entry: files become module nodes by rank, directories are merged into inter nodes only |
| NodeTree.CollectAt | native/src/core/module.cpp:93-126 | One scan seen at every path: nothing below a file of the tree or of the module; else a file stays or takes the place of a directory, directories are merged, `.replace` accumulates |
| NodeTree.CollectedTree | native/src/core/module.cpp:287-323 | After all modules, for any modules: nothing below a module's file; else the first module with a file at a path supplies it, with the type and mark of a directory an earlier module has there; a directory is there if some module has one and is marked if some module marks it; nothing else is in the tree |
| NodeTree.TreeMatchesModules | native/src/core/module.cpp:93-126 | Files of the tree are exactly the files of modules that lie below no other file, and so are marks where no module has a file |
| MagicMount.MirrorIsUpgradedDummy | native/src/core/module.cpp:33-49 | The tmpfs constructor applied to a dummy entry mirrors the real subtree completely |
| MagicMount.PrepareInPlace | native/src/core/module.cpp:51-91 | The loop that erases and upgrades children while walking them computes the prepared directory |
| MagicMount.PrepareOne | native/src/core/module.cpp:78-87 | One child is prepared with the replace state passed down, and upgraded if it asks for it |
| MagicMount.BuildTmpfs | native/src/core/module.cpp:33-49 | Listing the real directory and then upgrading the remaining inter nodes equals the one-step definition |
| MagicMount.ListDirectory | native/src/core/module.cpp:35-41 | Every listed name without a child gets a dummy node, existing children are kept |
| MagicMount.UpgradeChildren | native/src/core/module.cpp:44-48 | Every child that is an inter node becomes a tmpfs node, the others stay |
| MagicMount.MirrorShowsOriginal | native/src/core/module.cpp:132-149 | A mirrored subtree shows the original exactly if it contains no special file |
| MagicMount.PreparedShowsOverlay | native/src/core/module.cpp:33-190 | For every scanned tree and every file system, the prepared and mounted node shows the intended overlay if and only if nothing in it fails, both inside a tmpfs and mounted over an existing entry |
| MagicMount.RootShowsOverlay | native/src/core/module.cpp:51-91 | The same for a partition root, which drops the children it cannot mount |
| MagicMount.SpecialFileIsLost | native/src/core/module.cpp:138-143 | A concrete tree where adding one module file makes a socket disappear |
| MagicMount.ClashIsNotShown | native/src/core/module.cpp:151-190 | Concrete trees where a module has a file over a directory of the device, or a directory over a file, and the view is not the intended one |
| MountView.PrepareSettles | native/src/core/module.cpp:51-91 | In every prepared tree a child that cannot be bind mounted has a tmpfs parent, a tmpfs node keeps no inter node, and directories below a replaced one are replaced tmpfs nodes |
| MountView.UpgradeSettles | native/src/core/module.cpp:33-49 | The tmpfs constructor establishes these three facts |
| MountView.RootSettles | native/src/core/module.cpp:68-77 | A prepared partition root keeps only children it can mount |
| MountView.Namespace.BuildWorker | native/src/core/module.cpp:171-190 | What a tmpfs node assembles in its worker directory |
| MountView.Namespace.Mount | native/src/core/module.cpp:151-190 | A mount changes the view at its own path only, to the mounted node, and does nothing where the path is missing |
| MountView.Namespace.MountChildren | native/src/core/node.hpp:115-118 | Mounting the children in any order gives the mounted directory |
| MountView.ScanModules | native/src/core/module.cpp:296-323 | The scan of all modules in list order |
| MountView.LoadPartition | native/src/core/module.cpp:345-358 | One partition is prepared and mounted, the rest of the view is untouched |
| MountView.LoadPartitions | native/src/core/module.cpp:345-358 | All partitions, in any order, give the loaded view |
| MountView.LoadModules | native/src/core/module.cpp:287-359 | From the module list to the final view |
| MountView.OverlayAt | native/src/core/module.cpp:33-190 | The overlay read off path by path: module file, nothing under a whiteout or replaced directory, else the original |
| MountView.HeadShowsOverlay | native/src/core/module.cpp:345-358 | Below a name under which nothing fails, a mounted partition shows the intended overlay |
| MountView.PartitionView | native/src/core/module.cpp:345-358 | The view of a loaded partition at every path, in terms of its node tree; what the root drops shows the original |
| MountView.DropsInModules | native/src/core/module.cpp:68-77 | A root drops a name exactly if what the modules have there cannot be bind mounted over what the device has there |
| MountView.LoadedModulesView | native/src/core/module.cpp:287-359 | Final theorem, for any modules: at every path nothing below a module's file, else the first module's file, nothing if that is a whiteout, a directory where a module has one, nothing below a replace mark, and the original everywhere else; a name the root drops, and everything below it, shows the original |
| GzipStream.InflatedSplit | native/src/boot/compress.cpp:72-139 | Inflating two pieces one after the other is inflating their concatenation |
| GzipStream.DecodeSplit | native/src/boot/compress.cpp:72-139 | Decoding does not depend on where the input is cut, including between 0x1f and 0x8b |
| GzipStream.FeedSplit | native/src/boot/compress.cpp:72-139 | The same in every mode of the decoder |
| GzipStream.DecodesAllMembers | native/src/boot/compress.cpp:112-136 | The output is the concatenated content of all members; bytes that start no member are ignored |
| GzipStream.GzDecoder.Inflate | native/src/boot/compress.cpp:89-111 | One inflate call with limited output space makes exactly the progress it reports |
| GzipStream.GzDecoder.Write | native/src/boot/compress.cpp:72-139 | After any writes the sink holds the decoding of everything fed so far |
| GzipStream.GzDecoder.DecodeLoop | native/src/boot/compress.cpp:89-139 | The loop, its resets and its mode changes decode one buffer |
| GzipStream.DecodeStream | native/src/boot/compress.cpp:72-139 | For every split into writes the output is that of the whole stream |
| ChunkStream.NothingLost | native/src/base/stream.cpp:52-80 | Emitted chunks and the buffered rest are all the input, however the chunk size changes |
| ChunkStream.DrainSplit | native/src/base/stream.cpp:52-80 | Where the input is cut makes no difference to chunks, state or buffer |
| ChunkStream.EmittedSplit | native/src/base/stream.cpp:52-80 | The chunks of two writes are the chunks of the first followed by those of the second |
| ChunkStream.BufferedIsShort | native/src/base/stream.cpp:52-80 | The buffer never holds a full chunk |
| ChunkStream.UndefinedOverruns | native/src/base/stream.cpp:52-80 | What is undefined, byte by byte: the next byte arrives when the chunk size is zero, or when the buffer is full and the chunk is not |
| ChunkStream.ChunkOutStream.AllAccounted | native/src/base/stream.cpp:52-80 | In every state, the chunks handed over and the buffered bytes are everything written |
| ChunkStream.ChunkOutStream.Write | native/src/base/stream.cpp:52-80 | A write extends the stream by its bytes, or fails exactly if the chunk consumer does; chunks and buffer account for every byte |
| ChunkStream.ChunkOutStream.NextChunk | native/src/base/stream.cpp:55-69 | The next chunk is the first bytes of the buffer and the input together, the rest of the input is left |
| ChunkStream.ChunkOutStream.Finalize | native/src/base/stream.cpp:86-93 | What is buffered becomes one last chunk |
| ChunkStream.RunStream | native/src/base/stream.cpp:52-93 | A whole stream cut anywhere equals the uncut one |
| Lz4Legacy.EncoderWritesBlocks | native/src/boot/compress.cpp:549-583 | The encoder emits one sized block per chunk and counts the input modulo 2^32 |
| Lz4Legacy.Encode | native/src/boot/compress.cpp:549-583 | For every split into writes the encoder emits the frame of the whole input |
| Lz4Legacy.DecodeBlocks | native/src/boot/compress.cpp:502-547 | The decoder, alternating between size words and blocks, recovers the blocks |
| Lz4Legacy.InsideIff | native/src/boot/compress.cpp:502-547 | However its input is cut, the decoder stays inside its buffer exactly if no size word is zero while bytes follow it and none exceeds the buffer while more bytes follow than the buffer holds |
| Lz4Legacy.ZeroSizeWord | native/src/boot/compress.cpp:518-529 | A concrete frame with a size word of zero does not |
| Lz4Legacy.FrameDecodes | native/src/boot/compress.cpp:502-547 | Decoding a frame returns its input with nothing left over, with or without the size trailer |
| Lz4Legacy.EncodeThenDecode | native/src/boot/compress.cpp:502-583 | The round trip for every split of writes on both sides |
| NameOrder.SortKeys | native/src/boot/cpio.rs:281-281 | Map iteration visits every key once in ascending byte order |
| CpioFormat.X8u | native/src/boot/cpio.rs:825-834 | The loop parses eight hexadecimal digits or fails on any other character |
| CpioFormat.HexRoundTrip | native/src/boot/cpio.rs:825-834 | Printed fields are parsed back to their value |
| CpioFormat.Dump | native/src/boot/cpio.rs:276-317 | The file written piece by piece, padded by a running position, is the archive image |
| CpioFormat.WriteEntries | native/src/boot/cpio.rs:281-308 | Entries are written in order with consecutive inodes, each aligned to four bytes |
| CpioFormat.LoadFromData | native/src/boot/cpio.rs:230-268 | The loop over positions computes the loaded archive, an error, or an access out of bounds |
| CpioRoundTrip.StepOnEntry | native/src/boot/cpio.rs:234-265 | One turn of the reader on a written entry returns that entry and the next aligned position |
| CpioRoundTrip.StepOnTrailer | native/src/boot/cpio.rs:247-253 | On the trailer the reader continues at the next magic, or stops |
| CpioRoundTrip.LoadDump | native/src/boot/cpio.rs:230-317 | A written archive inside a longer file is read completely and then the reader resynchronises |
| CpioRoundTrip.DumpThenLoad | native/src/boot/cpio.rs:230-317 | Loading what was dumped returns the archive, for all 32-bit fields and ordinary names |
| CpioRoundTrip.ConcatenatedArchives | native/src/boot/cpio.rs:247-253 | Two archives with aligned zero padding between them load as the first overridden by the second |
| CpioBackup.NormPathIdempotent | native/src/boot/cpio.rs:841-846 | Normalising a path twice is normalising it once |
| CpioBackup.SplitJoin | native/src/boot/cpio.rs:841-846 | Joining pieces free of the separator and splitting again returns the pieces |
| CpioBackup.RemoveBackup | native/src/boot/cpio.rs:618-619 | Removing `.backup` recursively leaves exactly the entries outside it |
| CpioBackup.MergeCompares | native/src/boot/cpio.rs:621-656 | The merge walk saves exactly the names that are missing or have other data, records exactly the new names, both in order |
| CpioBackup.SavedName | native/src/boot/cpio.rs:572-586 | The name an entry is saved under leads back to it exactly if the entry was compressed, or is none of the reserved names and does not look compressed |
| CpioBackup.KeysApart | native/src/boot/cpio.rs:658-666 | Two saved entries share a name exactly if one was compressed and the other is its `.xz` namesake |
| CpioBackup.RmListDooms | native/src/boot/cpio.rs:592-596 | The removal list removes exactly the recorded names |
| CpioBackup.CollectedBack | native/src/boot/cpio.rs:567-586 | If saved names lead back and do not clash, restore collects exactly the saved entries, unchanged |
| CpioBackup.CollectedOnly | native/src/boot/cpio.rs:567-586 | If restore collects every saved name, they all lead back and none clash |
| CpioBackup.RestoreUndoesBackup | native/src/boot/cpio.rs:567-691 | Restore after backup gives the original names and data if and only if something differed (or the original is empty) and every recorded name leads back; entries are then the original's where data differed and the archive's own elsewhere |
| CpioBackup.UnchangedIsEmptied | native/src/boot/cpio.rs:588-600 | Whatever the archive, a backup against an original with the same contents is restored to nothing |
| CpioBackup.OneFileLost | native/src/boot/cpio.rs:588-600 | A concrete archive of one file that restore empties |
| CpioBackup.ClashLoses | native/src/boot/cpio.rs:658-666 | Whatever the original, two entries saved under one name are not both restored |
| CpioBackup.FileAndXzLost | native/src/boot/cpio.rs:658-666 | A concrete original with a file `a` and a directory `a.xz` |
| CpioArchive.Cpio.Rm | native/src/boot/cpio.rs:319-335 | Removes the normalised path, and everything below it if recursive, and nothing else |
| CpioArchive.Cpio.MakeBackup | native/src/boot/cpio.rs:602-691 | The in-place backup computes the specified archive |
| CpioArchive.Cpio.UndoBackup | native/src/boot/cpio.rs:567-600 | The in-place restore computes the specified archive |
| CpioArchive.Cpio.RemoveListed | native/src/boot/cpio.rs:592-596 | The loop over the list removes exactly the listed names |
| CpioArchive.Next | native/src/boot/cpio.rs:624-656 | One turn of the walk takes the action of the merge and advances the right iterators |
| CpioArchive.Walk | native/src/boot/cpio.rs:621-673 | The loop collects the saved entries and the removal list of the merge |
| CpioArchive.Collect | native/src/boot/cpio.rs:570-586 | The pass over `.backup/` collects the restored entries and the removal list |
| CpioArchive.PayloadStep | native/src/boot/cpio.rs:572-586 | One more name adds the entry it restores, or nothing |
| CpioArchive.SortedUnique | native/src/boot/cpio.rs:570-572 | Filtering keys in order is ordering the filtered keys |
| AvTable.Table.SearchFrom | native/src/sepolicy/sepolicy.cpp:153-174 | Finds the next node of a key in its chain and skips no such node |
| AvTable.Table.Search | native/src/sepolicy/sepolicy.cpp:153-174 | Finds a node of the key, or none exists in the whole table |
| AvTable.Table.Insert | native/src/sepolicy/sepolicy.cpp:176-182 | Adds one node with the default mask at any place of its chain; the count stays the number of chained nodes |
| AvTable.Table.Remove | native/src/sepolicy/sepolicy.cpp:114-140 | Removes exactly the given node, and reports failure exactly if it is not in the table |
| AvTable.Table.StripDontaudit | native/src/sepolicy/sepolicy.cpp:684-689 | Removing while iterating leaves exactly the nodes of the other kinds |
| AvRules.ApplyAllAt | native/src/sepolicy/sepolicy.cpp:219-241 | A batch edits exactly the keys it addresses, whatever their order and repetition, and leaves no entry that equals the default |
| AvRules.KeysOfHas | native/src/sepolicy/sepolicy.cpp:192-219 | The nested expansion addresses exactly the combinations of its three lists |
| AvRules.EffectAt | native/src/sepolicy/sepolicy.cpp:192-242 | A rule with wildcards changes the addressed bits of the addressed keys and nothing else |
| AvRules.LastRuleDecides | native/src/sepolicy/sepolicy.cpp:192-242 | Over every sequence of rules a bit is what the last rule touching it says; untouched it stays |
| AvRules.NoRedundantEntry | native/src/sepolicy/sepolicy.cpp:142-151 | No sequence of rules introduces an entry that says nothing |
| AvRules.DenyReachesAll | native/src/sepolicy/sepolicy.cpp:193-214 | A fully wildcarded deny clears the permission of its class in every entry |
| AvRules.AllowReaches | native/src/sepolicy/sepolicy.cpp:199-214 | After an allow rule a pair is granted exactly if it was before or the rule covers both types; a wildcard covers the types with an attribute and no others |
| AvRules.WildcardMissesType | native/src/sepolicy/sepolicy.cpp:199-214 | A concrete type without an attribute that a fully wildcarded allow does not reach |
| AvRules.Policy.GetNode | native/src/sepolicy/sepolicy.cpp:184-190 | Finds or makes the node; only the addressed key can appear |
| AvRules.Policy.AddToKey | native/src/sepolicy/sepolicy.cpp:219-241 | Find or insert, edit, drop if redundant refines one edit of the map |
| AvRules.Policy.AddRule | native/src/sepolicy/sepolicy.cpp:192-242 | The recursive expansion on the chained table refines the rule on the map; entries of other kinds stay |
| AvRules.Policy.AddForSources | native/src/sepolicy/sepolicy.cpp:193-204 | The loop over sources goes through all types or only attributes, depending on the rule |
| AvRules.Policy.AddForTargets | native/src/sepolicy/sepolicy.cpp:205-214 | The same for targets |
| AvRules.Policy.AddForClasses | native/src/sepolicy/sepolicy.cpp:215-218 | The loop over all classes |
| AvRules.Policy.StripDontaudit | native/src/sepolicy/sepolicy.cpp:684-689 | On the map, exactly the audit-deny entries disappear |
| AvRules.Policy.Run | native/src/sepolicy/sepolicy.cpp:192-242 | Every sequence of calls keeps the table a refinement of the map |
| XpermRules.ListedIs | native/src/sepolicy/sepolicy.cpp:320-332 | The list of found nodes determines what they cover, and has at most one node per index |
| XpermRules.FindNodes | native/src/sepolicy/sepolicy.cpp:320-332 | The search files every node of the key under its index, of several the last; a node is left over exactly if some index has two |
| XpermRules.RemoveFunctions | native/src/sepolicy/sepolicy.cpp:334-344 | A reset removes all listed function nodes of the key and nothing else |
| XpermRules.NodeAt | native/src/sepolicy/sepolicy.cpp:346-360 | Finds or makes the node of an index without changing other coverage |
| XpermRules.SetBits | native/src/sepolicy/sepolicy.cpp:367-379 | Sets exactly the bits of a range, none if it is empty |
| XpermRules.ClearBits | native/src/sepolicy/sepolicy.cpp:388-404 | Clears exactly the bits of a range |
| XpermRules.Extend | native/src/sepolicy/sepolicy.cpp:362-381 | Without reset the commands the listed nodes cover become the old ones and the range |
| XpermRules.Complement | native/src/sepolicy/sepolicy.cpp:334-406 | With reset they become exactly the complement of the range, whatever was there |
| XpermRules.AddXperm | native/src/sepolicy/sepolicy.cpp:296-408 | One rule on any table: without reset the key covers the old commands and the range; with reset the complement of the range and what nodes left over by the search cover; other keys are untouched and one node per index stays one |
| XpermRules.AddXperms | native/src/sepolicy/api.cpp:52-57 | A list of ranges applied one after the other, on any table without a reset and on tables with one node per index with one |
| XpermRules.RangesAddUp | native/src/sepolicy/sepolicy.cpp:362-381 | Without complement the ranges of a list add up |
| XpermRules.LastComplementWins | native/src/sepolicy/sepolicy.cpp:334-344 | A complement forgets everything before it |
| XpermRules.ComplementOfList | native/src/sepolicy/statement.rs:573-573 | A complemented list covers all but the listed commands exactly if the last range contains the others |
| XpermRules.ComplementListFails | native/src/sepolicy/statement.rs:573-573 | A concrete complemented list of two commands that keeps the first of them covered |
| XpermRules.RangeIsExact | native/src/sepolicy/sepolicy.cpp:363-369 | A range covers all its numbers, and only them exactly if it stays in one driver or spans whole drivers |
| XpermExpansion.XpermKeysHas | native/src/sepolicy/sepolicy.cpp:301-312 | A wildcard in an ioctl rule stands for all attributes, or all classes |
| XpermExpansion.KeyEdited | native/src/sepolicy/sepolicy.cpp:313-406 | Editing one key gives it the new coverage and leaves the coverage of all other keys |
| XpermExpansion.AddXpermRule | native/src/sepolicy/sepolicy.cpp:296-408 | With wildcards every addressed key is edited once, whatever the repetitions, and every other key keeps its coverage; a reset asks for one node per index |
| XpermText.ListParses | native/src/sepolicy/statement.rs:164-176 | The list loop reads a braced list of ranges back and stops at the brace |
| XpermText.RangesReadBack | native/src/sepolicy/statement.rs:152-202 | A list is read back as written, as a complement exactly behind a tilde |
| XpermText.SingleValue | native/src/sepolicy/statement.rs:184-200 | A single value adds that command; zero adds all commands |
| XpermText.ZeroDoesNotClear | native/src/sepolicy/statement.rs:576-576 | Zero, documented to clear all rules, covers every command |
| XpermText.StarCoversAll | native/src/sepolicy/statement.rs:177-183 | A star adds all commands |
| XpermText.HexWord | native/src/sepolicy/statement.rs:257-261 | A word starting with `0x` is the decimal number behind it, or zero if that is none |
| XpermText.HelpTextComplement | native/src/sepolicy/statement.rs:581-581 | The complement in the help text, read by the tokenizer and the parser, covers every command but zero |
| PolicyText.FirstWord | native/src/sepolicy/statement.rs:266-272 | A word followed by white space or the end is the first word |
| PolicyText.WordsTrim | native/src/sepolicy/statement.rs:296-303 | Trimming a statement changes no word |
| PolicyText.TokenizerIsLossless | native/src/sepolicy/statement.rs:213-264 | For every word, the tokens shown again give back the word unless one is hexadecimal |
| PolicyPrint.NamesInvert | native/src/sepolicy/sepolicy.cpp:784-799 | A printed permission name is found again as the bit it was printed for |
| PolicyPrint.ExpandHas | native/src/sepolicy/api.cpp:30-50 | The expansion is the cross product of the four lists |
| PolicyPrint.PrintedLineParses | native/src/sepolicy/statement.rs:296-310 | A printed line is read back as the statement it stands for |
| PolicyPrint.ResolvesBack | native/src/sepolicy/sepolicy.cpp:244-291 | The names of a printed line resolve to the key and bit they were printed from |
| PolicyPrint.EntryLoads | native/src/sepolicy/sepolicy.cpp:754-814 | Loading one printed entry restores its named bits under its key and changes no other key |
| PolicyReload.ReloadIs | native/src/sepolicy/sepolicy.cpp:754-814 | Printing and loading a table gives its named part |
| PolicyReload.ReloadRebuilds | native/src/sepolicy/sepolicy.cpp:754-814 | Loading the printed table into an empty one rebuilds it if and only if every entry says something and all its non-default bits have names |
| PolicyReload.PrintRules | native/src/sepolicy/sepolicy.cpp:691-706 | The walk over all chains prints every entry exactly once |
| PolicyReload.PrintChain | native/src/sepolicy/sepolicy.cpp:754-814 | One chain of that walk |
| PolicyReload.LoadRules | native/src/sepolicy/statement.rs:289-310 | Loading lines into the table refines loading them into the map |
| PolicyReload.ExecAll | native/src/sepolicy/api.cpp:59-85 | The callback of the expansion, run on every combination |
| PolicyReload.Rebuild | native/src/sepolicy/sepolicy.cpp:754-814 | The copy made from the printed text equals the original exactly under that condition |
| ThreadPool.CountedKept | native/src/core/thread.cpp:44-99 | Every step keeps the idle count equal to the waiting threads, the total equal to all threads, and the core threads the first three |
| ThreadPool.RunOnceKept | native/src/core/thread.cpp:71-78 | Every step keeps each taken task finished or run by exactly one worker |
| ThreadPool.ConservedKept | native/src/core/thread.cpp:88-99 | Every step keeps submitted tasks equal to taken, dropped and pending ones |
| ThreadPool.EveryRun | native/src/core/thread.cpp:44-99 | These three hold in every reachable state of every interleaving with any number of callers |
| ThreadPool.DeliveredKept | native/src/core/thread.cpp:44-99 | With one caller at a time a caller is signalled only once its task is taken |
| ThreadPool.TakenBeforeReturn | native/src/core/thread.cpp:88-99 | Over every run with non-overlapping calls and no spurious wakeup of the caller, tasks are taken exactly once, in order, before their call returns |
| ThreadPool.LossIsOverwriting | native/src/core/thread.cpp:90-90 | Over every run no task is lost exactly if no call overwrote a pending one |
| ThreadPool.OverlapLosesTask | native/src/core/thread.cpp:88-99 | A concrete run of two overlapping calls that loses a task |
| ThreadPool.SpuriousLosesTask | native/src/core/thread.cpp:98-98 | A concrete run where a spurious wakeup of the caller loses a task |
| LogPipe.WriterLoop | native/src/core/logging.rs:265-341 | The reader loop computes the log from the bytes of the pipe |
| LogPipe.FrameIsRead | native/src/core/logging.rs:117-139 | The reader consumes exactly one frame per record, whatever follows |
| LogPipe.FramingIff | native/src/core/logging.rs:277-287 | A record is read as what it was written for exactly if its priority is not negative |
| LogPipe.LevelsAreSupported | native/src/core/logging.rs:51-58 | Every log level gives a supported, non-negative priority |
| LogPipe.FramesAreRead | native/src/core/logging.rs:265-341 | A sequence of frames is handled record by record |
| LogPipe.LogIs | native/src/core/logging.rs:277-341 | The file holds the lines of all supported messages, including those before the setup record; its position and repetitions make no difference |
| LogPipe.PiecesAreFrames | native/src/core/logging.rs:115-133 | Frames fit PIPE_BUF, so that the kernel writes each of them whole |
| LogPipe.EveryInterleaving | native/src/core/logging.rs:115-357 | For every set of writers and every interleaving of their writes the log is that of the records in pipe order |
| LogPipe.ThreadOrderKept | native/src/core/logging.rs:115-139 | Each thread's messages appear in the order it logged them |
| Cmdline.ParseOneMoves | native/src/init/getinfo.cpp:49-59 | On every string each turn of the parser gets further |
| Cmdline.ExtractUntil | native/src/init/getinfo.cpp:18-39 | Appending stretches between special characters extracts the same text as reading character by character |
| Cmdline.ParsePair | native/src/init/getinfo.cpp:49-59 | One turn parses one pair and strictly advances |
| Cmdline.ParseImpl | native/src/init/getinfo.cpp:43-61 | The parser terminates on every string with the specified list of pairs |
| Cmdline.ExtractRun | native/src/init/getinfo.cpp:24-38 | A stretch of ordinary characters is copied as it is |
| Cmdline.PrintedPairParses | native/src/init/getinfo.cpp:43-61 | One printed pair is one turn of the parser |
| Cmdline.ParsePrinted | native/src/init/getinfo.cpp:43-61 | Printing pairs as key="value" joined by the delimiter and parsing returns them, for all keys free of special characters and values free of quotes |
| Cmdline.InstancesParsePrinted | native/src/init/getinfo.cpp:63-71 | The same for the kernel command line, the boot configuration and the partition map |
| PatternRemoval.RemovePattern | native/src/boot/patch.rs:37-62 | Removal in place equals removal on the original bytes, the returned size is the kept count and the rest is zero |
| PatternRemoval.MatchIsInside | native/src/boot/patch.rs:4-35 | Every match is non-empty and ends inside the buffer |
| PatternRemoval.MatchRemoves | native/src/boot/patch.rs:4-35 | A match is an optional comma, a flag of the list, and its value up to a blank, line end or NUL if one follows |
| PatternRemoval.PatchVerity | native/src/boot/patch.rs:64-80 | The verity flags are removed in place |
| PatternRemoval.PatchEncryption | native/src/boot/patch.rs:82-88 | The encryption flags are removed in place |
| BootImage.AlignToIs | native/src/base/files.hpp:12-16 | Aligning moves up by less than one unit to a multiple |
| BootImage.AlignToShift | native/src/base/files.hpp:12-21 | From an aligned position only what is written counts |
| BootImage.OffsetsInOrder | native/src/boot/bootimg.cpp:374-378 | Every component starts page aligned, behind the one before it, by less than a page |
| BootImage.OffsetsGrow | native/src/boot/bootimg.cpp:399-412 | Components are in order and disjoint |
| BootImage.ParseImage | native/src/boot/bootimg.cpp:368-412 | Parsing succeeds exactly if the image fits the map; every component starts at a page and is followed by less than a page of padding; every position behind the header lies in exactly one padded component or in the tail |
| BootImage.RisingPartitions | native/src/boot/bootimg.cpp:374-412 | Rising bounds divide a stretch: each position lies between exactly two that follow each other |
| BootImage.Repack | native/src/boot/bootimg.cpp:655-867 | Components are written behind the header with padding, and the header records their sizes |
| BootImage.SizeIsRight | native/src/boot/bootimg.hpp:361-573 | The new header has the right size for a component exactly if the file fits it |
| BootImage.RepackParses | native/src/boot/bootimg.cpp:374-412 | The blocks of a repacked image are the stored components if and only if all files fit the header |
| BootImage.MissingFileNotRecovered | native/src/boot/bootimg.cpp:374-412 | A concrete header that keeps the size of a component without a file, which is not recovered |
| Payload.ReadData | native/src/boot/payload.rs:124-141 | Skipping and reading, with the wrapped 64-bit difference: a file returns the bytes at the signed offset from the start of the data, a pipe the slice exactly if it lies ahead |
| Payload.Skip | native/src/base/files.rs:49-57 | A relative seek, or reading forward where that fails |
| Payload.Extract | native/src/boot/payload.rs:117-177 | The loop succeeds exactly if every operation is valid and, for a pipe, no data range starts before the end of the one before it; it writes what random access would |
| Payload.SeekedIsSlice | native/src/base/files.rs:49-57 | Seeking delivers every slice of the data, and differs from slicing exactly for ranges before the start of the data and empty ones past its end |
| Payload.WriteAllAt | native/src/boot/payload.rs:151-172 | Every byte of the output is that of the write covering it, or zero |
| Payload.WriteAllEnd | native/src/boot/payload.rs:151-172 | The output ends where the write that reaches farthest does |
| Payload.SameFile | native/src/boot/payload.rs:151-172 | Writes that do not overlap give the same file in any order |
| Payload.PermutedWrites | native/src/boot/payload.rs:117-121 | Reordering operations reorders their writes |
| Payload.SortedIs | native/src/boot/payload.rs:117-121 | The operations are sorted by offset, a missing one counting as zero; those with one offset keep their order |
| Payload.StreamingIsRandomAccess | native/src/boot/payload.rs:117-177 | Sorted operations give the file that the operations give in their own order, if destinations do not overlap |
| Payload.ExtractPartition | native/src/boot/payload.rs:117-177 | For every list of operations in any order: from a file extraction succeeds exactly if every operation is valid, from a pipe if also the sorted data ranges do not overlap; where destinations do not overlap the file is that of random access in the original order |
| Payload.ForwardIff | native/src/boot/payload.rs:137-142 | Sorted operations can be read forward exactly if no data range reaches into a later one |
| BootStages.Daemon.RunPostFsData | native/src/core/daemon.rs:111-169 | Counts the run unless it gives up early, and asks for safe mode from the third counted run on |
| BootStages.Daemon.HandleRequest | native/src/core/daemon.rs:199-233 | Runs the stage a request is entitled to and keeps flags, counter and history consistent |
| BootStages.Daemon.Restart | native/src/core/daemon.rs:28-49 | A reboot clears the flags and keeps the stored counter |
| BootStages.Daemon.Run | native/src/core/daemon.rs:111-233 | Over any sequence of requests and reboots the counter is the number of counted runs since the last boot-complete |
| BootStages.AtMostOnce | native/src/core/daemon.rs:205-213 | Post-fs-data runs at most once per boot |
| BootStages.OnlyAfterPostFsData | native/src/core/daemon.rs:214-228 | Late-start runs only after post-fs-data of the same boot and never in safe mode; boot-complete too waits for it |
| BootStages.ThirdTimeIsSafe | native/src/core/daemon.rs:135-153 | Three counted runs without a boot-complete between them: the third is in safe mode |

## Left out

- Node trees are values: parent pointers, cached paths and the copying of file attributes are not modelled; the children
  table is modelled in place by one class.
- `.replace` directly in a partition root: the source then advances an iterator past the end, so the model excludes it.
- Injected Magisk and Zygisk nodes, property loading and the choice of modules are not part of this model.
- Symbolic links are leaves of the file system and are not followed.
- MountView.LoadedModulesView: asks that the partition is a directory of the device and that nothing fails under the head
  of the path; what is shown under a head where something fails is `Mounted`, without a statement path by path.
- A module's file that takes the place of an earlier module's directory has a directory's type in the tree; where it is
  bound over a file the model shows it with the kind of that type.
- The gzip, xz, LZ4 block and inflate internals, hashing, signing and AVB data are parameters with stated contracts or
  left out; encoders other than legacy LZ4 would only repeat the chunk stream result.
- Reads out of bounds of a truncated cpio file panic in the source and are one outcome of the model.
- CpioArchive.Cpio.MakeBackup: takes the entries of the original archive; reading its file is `LoadFromData`.
- The other cpio commands (`add`, `mkdir`, `ln`, `mv`, `ls`, `extract`, `patch`, `test`) are single map updates or output.
- AvTable.Table.Insert: the place in the chain is left free, because the key order is libsepol's; chains are sequences
  of nodes instead of linked pointers.
- Type transitions, filename transitions, constraints, roles and the type declarations of the policy are not modelled.
- Of the statement language the access vector rules and the ioctl permission sets are parsed; the other statements are
  fixed sequences of names.
- `0x` tokens parse their digits as decimal and are shown as hexadecimal, so statements with them do not round trip;
  printing ioctl entries is left out for that reason.
- Ioctl rules on policies older than the version that supports them do nothing; the model starts behind that check.
- XpermRules.AddXperms: a list with a reset on a key with two nodes of one index is stated range by range only.
- PolicyReload.PrintRules: prints the access vector entries; the type, attribute, ioctl and genfs lines are left out.
- PolicyReload.PrintChain: skips entries of other kinds for the same reason.
- PolicyReload.LoadRules: statements other than access vector rules leave the table as it is.
- Names longer than 255 bytes are cut before they are looked up; the round trip is stated for shorter plain names.
- ThreadPool.EveryRun: safety only; a worker that times out does not look for a pending task again, so progress is not
  claimed. Forked children, which reset the pool, are not modelled.
- Signal delivery and lock hand-over in the thread pool are events of a state machine on values, not code with locks.
- LogPipe.EveryInterleaving: formatting and the clock are a parameter; errors of the pipe or the file end the reader.
- BootImage.Repack: the vendor ramdisk table, zImage kernels, MTK sub-headers as separate fields, checksums and
  proprietary trailers are left out; component files are taken in the form in which they are written.
- Payload.Extract: parsing the manifest is left out, sizes have 64 bits and arithmetic wraps as in a release build. Zero
  operations write as many bytes as they have blocks, as the source does.
- ChunkStream.ChunkOutStream.Write: asks the caller to avoid what is undefined in the source; `UndefinedOverruns` says
  what that is.
- BootStages.Daemon.HandleRequest: settings writes succeed, and what the stages run is not modelled.
- `byte_data::patch`, `replace_all` and `split` are simple search loops.
- The deny list, Zygisk, ptrace and seccomp code depends on the kernel and is not part of this model.
