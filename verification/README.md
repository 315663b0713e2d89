# ntfs-forensic: a verified model

ntfs-forensic reads NTFS volumes and change journals for forensic work.  This project models its
loops and state machines in Dafny and proves that each of them means what a much simpler
definition says, for every input: journals, raw images and log pages are untrusted bytes, so
nothing below assumes more about them than the statement in question names.

| part of the system | modules | compared with |
|---|---|---|
| Rewind: paths as they were at each journal record | `Rewind`, `RewindHistory`, `RewindRevision`, `RewindTrust`, `RewindPaths` | the history of the volume itself, a state machine of name tables |
| `$MFT` and ReFS path resolution | `Mft`, `Refs`, `Paths` | the Rewind resolver; the set of ancestors of an id |
| `$LogFile` pages and transactions | `LogFile`, `Transactions`, `TransactionFacts`, `TransactionOrder` | an encoding of records field by field; a partition of the records by slot and terminal |
| runlists and cluster data | `Runlist`, `Clusters`, `Data`, `Compressed`, `CompressedUnits`, `Fs`, `Fragments`, `Bootstrap`, `Vfs` | `Flat`, the bytes of the clusters one after the other with holes as zeroes; for compressed data the contents of its units |
| record protection | `Record` | the protect step that `apply_fixup` undoes |
| USN journal reader and carver | `StreamScan`, `UsnReader`, `UsnJournal`, `UsnCarver`, `GridScan`, `Layout` | one scan of the whole stream, with no buffer |
| glob rules | `Rules` | the declarative `*`/`?` relation |

`SeqSort`, `Sequences`, `Bytes`, `Bits`, `Errors` and `Wrappers` hold what these share.

Objects and buffers the code updates in place are classes and arrays here (`RewindEngine`,
`UsnJournalReader`, `ApplyFixup`, `ReadAt`); its loops are methods with invariants, each proved
equal to a function of its inputs, and the results below are about that function.  Every induction
is written out: wherever Dafny would try one of its own, the lemma carries `{:induction false}`.
Proofs about a loop often take the loop's tests as function parameters, so that what a position
holds stays out of the reasoning about where the loop goes.

## Where the code and its promises part

- Rewind promises the path a file had at that moment.  A journal that lost a RENAME_OLD_NAME record
  breaks the promise (`LostOldNameMisplacesFile`).  `TrustedIffPinned` gives the exact condition for
  each result: every key its path is resolved through has its true name and parent, under every
  history that explains the journal, if and only if seed and journal pin the name of each of these
  keys.  `ResolvedTrulyIsTruePath` takes that to the reported path, and `AmbiguousPathIsWrong` builds
  a history with another path where the way up leads to a key that nothing names.
- The glob loop compares literally before it looks for `*`, so a `*` byte in the text can use up a
  star of the pattern.  Its positive answers are always right; `ExactTexts` shows that all its
  answers are right exactly for texts without a `*` byte.
- A USN record that claims more bytes than the stream has left can end the whole read:
  `OverrunHidesRecord` is a stream of 72 bytes whose one whole record is never seen.
  `ReadsWholeStreamIff` says for exactly which streams no record is lost.  Streams without such a
  claim are among them (`ReaderIsPlainScan`).
- The comment above `bootstrap_mft_runs` says that each extension record is covered by the runs
  assembled before it.  The code reads every one of them through the first fragment
  (core/src/fs.rs:450): `ChainedExtensionIsNotFound` is an `$MFT` on which that fails, and
  `BootstrapSucceedsIff` the exact condition.
- The two `$MFT` path resolvers part on entries whose parents are missing, reused or more than 256
  names away.  `ReusedParentSplitsResolvers` shows a file that one of them puts into a directory that
  took over its parent's entry; `ResolversAgreeIff` says for exactly which entries they agree.
- The carver's comment puts the end of its time window at midnight, 2030-01-01.  The constant is 48000
  seconds later (`WindowInYears`).
- The ReFS walk gives path(parent)\name except on parent cycles, and there it never does
  (`PathRecursesIff`; `CycleCutsPaths` is the smallest case).

## Model

| member | source | states |
|---|---|---|
| `Rewind.RewindEngine.FromMft` | core/src/rewind.rs:114-129 | knows exactly the keys of the rows, each under its last row |
| `Rewind.RewindEngine.SeedFromCarved` | core/src/rewind.rs:141-149 | known keys keep their values; each new key gets its first row; no other key appears |
| `Rewind.SeedTableLast` | core/src/rewind.rs:119-127 | a key is seeded with its last row |
| `Rewind.CarvedTableKeys` | core/src/rewind.rs:141-149 | carving leaves what is known alone and adds no key without a row |
| `Rewind.CarvedTableFirst` | core/src/rewind.rs:141-149 | a new key is carved from its first row |
| `Rewind.RewindEngine.Rewind` | core/src/rewind.rs:189-276 | the table becomes that of the reverse pass; result i carries record i, source Allocated, the path of its parent in the forward table right after record i, and that path with the name behind it |
| `Rewind.RewindEngine.RunBackwards` | core/src/rewind.rs:193-222 | the reverse loop computes `ReversePass`, whose values `ReversePassValue` characterises |
| `Rewind.RunForwards` | core/src/rewind.rs:230-275 | result i is record i with both paths taken from the table as of that record |
| `Rewind.ResolveChain` | core/src/rewind.rs:164-180 | an ancestor chain within the depth cap resolves to the path it spells |
| `Rewind.ResolvesToRootIff` | core/src/rewind.rs:284-301 | a path starts at the volume root if and only if the parent references reach entry 5 within the cap; cycles, dangling parents and deeper chains never do |
| `Rewind.ResolveDangling` | core/src/rewind.rs:284-301 | a line of parents that ends at an unknown key: UNKNOWN with that key, then the names of the line |
| `Rewind.ResolveTooDeep` | core/src/rewind.rs:284-301 | a line past the cap, as every cycle gives one: UNRESOLVED with the key the cap falls on, then the names below it |
| `RewindHistory.ReversePassValue` | core/src/rewind.rs:193-222 | after the reverse pass a key has its earliest RENAME_OLD_NAME value, else its seed, else its latest record, and no other key is known |
| `RewindHistory.RewindIsIdempotent` | core/src/rewind.rs:193-273 | rewinding the same journal again changes neither the table nor any result |
| `RewindHistory.ExactFromStart` | core/src/rewind.rs:230-261 | if the reverse pass recovers the initial names, the forward table follows the volume through every record |
| `RewindHistory.RewindIsHistoricallyExact` | core/src/rewind.rs:189-276 | with announced renames the forward table equals the volume at every position on every known key |
| `RewindHistory.FullPathIsTruePath` | core/src/rewind.rs:263-273 | the reported paths, of the file and of its parent, are those of the volume right after that record |
| `RewindHistory.LostOldNameMisplacesFile` | core/src/rewind.rs:193-222 | a concrete journal whose file is reported under the directory's later name |
| `RewindRevision.EarlierNameIsConsistent` | core/src/rewind.rs:193-222 | before its first record a key may have had any name, if that record is a RENAME_NEW_NAME or there is none, else the one it carries: the journal has a history with it |
| `RewindTrust.TableValue` | core/src/rewind.rs:193-261 | after n records a key has what its last RENAME_NEW_NAME or FILE_CREATE says, else its earliest old name, else its seed, else its last record |
| `RewindTrust.PinnedIsTrue` | core/src/rewind.rs:193-261 | a name that seed and journal pin down is the true one under every history |
| `RewindTrust.UnpinnedIsMisread` | core/src/rewind.rs:193-261 | a name they do not pin down is another one under some history, which this constructs |
| `RewindTrust.TrustedIffPinned` | core/src/rewind.rs:189-276 | every key that result i is resolved through is true under every history if and only if each key on the way up is pinned |
| `RewindPaths.ResolvedTrulyIsTruePath` | core/src/rewind.rs:263-273 | resolved through true keys, both reported paths are those of the volume right after the record |
| `RewindPaths.AmbiguousPathIsWrong` | core/src/rewind.rs:263-273 | where the way up leads to a key that is unknown, or named only by a later rename, some history has a path that differs from the reported one |
| `Mft.IndexEntries` | core/src/mft.rs:162-170 | a number leads to the last entry that carries it, and no other number is known |
| `Mft.ResolveFullPath` | core/src/mft.rs:245-264 | the path joins the names the bounded walk collects, root first |
| `Mft.CollectParts` | core/src/mft.rs:246-262 | the loop collects what the recursive walk collects, on cyclic chains too |
| `Mft.SeedRewind` | core/src/mft.rs:183-194 | a fresh engine whose `resolve_path` agrees with the other resolver on exactly the entries that reach entry 5 |
| `Mft.WalksAgree` | core/src/mft.rs:245-264 | an entry whose references reach entry 5 within the caps gets the same path from both resolvers |
| `Mft.ResolversAgreeIff` | core/src/mft.rs:183-264 | for a non-root entry both resolvers give the same path if and only if its references reach entry 5 within 256 names and match the sequences they name |
| `Mft.FullPathIsLineage` | core/src/mft.rs:245-264 | every entry has the path its lineage spells, each parent being the last entry of the number named: up to the root, to itself, to a missing parent, or to the 256th name |
| `Mft.OrphanIsAtRoot` | core/src/mft.rs:245-264 | an entry whose parent is in no entry is reported as .\name |
| `Mft.ReusedParentSplitsResolvers` | core/src/mft.rs:245-264 | two entries on which the resolvers differ: one files under the directory that reused the parent's entry, the other reports the parent as unknown |
| `Refs.BuildLookup` | core/src/refs.rs:133-137 | exactly the ids with a record are known, each under its last one |
| `Refs.WalkUp` | core/src/refs.rs:156-178 | the loop with its visited set ends on every parent graph and lists what the walk lists |
| `Refs.ReconstructPaths` | core/src/refs.rs:130-184 | exactly the known ids get a path, and it is the one the walk spells |
| `Refs.WalkIsAncestorSet` | core/src/refs.rs:156-178 | a walk lists each known ancestor, and nothing else, exactly once |
| `Refs.WalkRecursesIff` | core/src/refs.rs:156-178 | the walk of an id is the id before its parent's walk if and only if the id is on no parent cycle |
| `Refs.PathRecurses` | core/src/refs.rs:156-182 | off cycles the path is path(parent)\name, or the name alone where the parent is unknown |
| `Refs.PathRecursesIff` | core/src/refs.rs:156-182 | under a known parent the path is path(parent)\name if and only if the id is on no parent cycle |
| `Refs.CycleCutsPaths` | core/src/refs.rs:160-164 | two ids that name each other, with the paths they get |
| `LogFile.ParseLogRecords` | core/src/logfile/mod.rs:316-371 | the loop decodes the records at the offsets of a greedy 8-byte grid scan |
| `LogFile.WalkedSpans` | core/src/logfile/mod.rs:316-371 | on any page each record has an LSN up to the page's last, type 1 or 2, a redo code up to 0x22 and lies within the page; the spans are aligned, increasing and disjoint |
| `LogFile.NoRecordMissed` | core/src/logfile/mod.rs:316-371 | every aligned position whose bytes pass those tests is reported or lies within a reported record |
| `LogFile.PageRoundTrip` | core/src/logfile/mod.rs:316-371 | a page laid out from zero words and padded records, every field at its offset in little-endian bytes, yields exactly those records |
| `LogFile.EncodedSpells` | core/src/logfile/mod.rs:281-309 | every record whose fields fit their widths has such bytes, with anything behind its fixed part |
| `LogFile.CodesRoundTrip` | core/src/logfile/mod.rs:104-215 | operations and their codes, 0x01, 0x1A and 0x1B among them, translate into each other both ways |
| `Transactions.CollectSlots` | core/src/logfile/transactions.rs:124-128 | each slot holds the indices of its records, in input order |
| `Transactions.BuildTransaction` | core/src/logfile/transactions.rs:177-196 | LSNs and operations run parallel to the record indices |
| `Transactions.SplitSlot` | core/src/logfile/transactions.rs:138-167 | the loop with its flag cuts a stream as `Split` does |
| `Transactions.ReconstructTransactions` | core/src/logfile/transactions.rs:121-175 | the whole reconstruction, for whatever order the hash map yields the slots in |
| `TransactionFacts.SplitIsExact` | core/src/logfile/transactions.rs:138-167 | cutting loses nothing, each piece ends at its terminal, only the last may be open, and the compensation flag starts afresh each time |
| `TransactionFacts.EveryRecordOnce` | core/src/logfile/transactions.rs:121-175 | each input index is in exactly one transaction, exactly once |
| `TransactionFacts.EveryTransactionWellCut` | core/src/logfile/transactions.rs:121-196 | each transaction is non-empty and lists records of its slot in LSN order with their LSNs and operations; Committed iff its last redo is CommitTransaction or ForgetTransaction, none before it is either; Aborted iff it is not Committed and some redo is a CompensationLogRecord |
| `TransactionFacts.SlotStreamRestored` | core/src/logfile/transactions.rs:131-175 | a slot's transactions in output order concatenate to its records by LSN, those of equal LSN in input order |
| `TransactionFacts.OpenTransactionIsLast` | core/src/logfile/transactions.rs:158-174 | a transaction that is followed by another one of its slot is Committed |
| `TransactionOrder.OutputStrict` | core/src/logfile/transactions.rs:169-174 | with distinct LSNs the first LSNs of the output increase strictly |
| `TransactionOrder.OrderIndependent` | core/src/logfile/transactions.rs:124-174 | with distinct LSNs slot, LSNs, operations, state and order of the output depend on neither input order nor hash order |
| `TransactionOrder.CommittedIsStable` | core/src/logfile/transactions.rs:131-167 | records with larger LSNs leave every committed transaction as it was |
| `Clusters.FlatConcat` | core/src/data.rs:77-98 | the meaning of a runlist is the concatenation of the meanings of its parts |
| `Data.ReadRunsCapped` | core/src/data.rs:47-101 | succeeds iff nothing overflows, the size is plausible and the clusters needed exist, and then returns `Flat[..min(real_size, allocated, cap)]` |
| `Data.ReadRunsMeaning` | core/src/data.rs:47-101 | the same, of the function the other readers are compared with; and a sum over 64 bits is a bad runlist, a size over 2^40 is too large |
| `Data.CappedRunsArePrefix` | core/src/data.rs:47-101 | a lower cap never fails where the full read succeeds and returns its prefix |
| `Data.OnDiskIsReachable` | core/src/data.rs:77-98 | runs that lie on the disk never make the read fail |
| `Compressed.GatherUnit` | core/src/data.rs:235-264 | the inner loop takes one unit off the queue, cutting the front run where it must |
| `Compressed.ReadCompressedRunsCapped` | core/src/data.rs:207-292 | ends even if a unit decodes to nothing, and computes `ReadCompressed`, which `CompressedReadMeaning` says in terms of `Flat` |
| `Compressed.TakeUnitConsumes` | core/src/data.rs:235-264 | clusters taken and clusters left add up; this is why the loop ends |
| `Compressed.CappedUnitsArePrefix` | core/src/data.rs:207-292 | if the uncapped read succeeds, so does every capped one, as its first min(len, cap) bytes, for any decoder |
| `CompressedUnits.TakeUnitCuts` | core/src/data.rs:235-264 | a unit taken from the queue and the rest still spell `Flat` of the queue |
| `CompressedUnits.CompressedReadMeaning` | core/src/data.rs:207-292 | unless a cluster is missing the read is the contents of the units, cut at min(real_size, cap), and it fails exactly when it reaches a unit that does not decode; a unit is zeroes where all sparse, its bytes where full and all allocated, else the decoded bytes of its allocated clusters cut to the unit |
| `CompressedUnits.UncompressedUnitsReadPlain` | core/src/data.rs:207-292 | runs made of fully allocated and fully sparse units read the same as through the plain reader, at every cap |
| `Fs.ReadVirtual` | core/src/fs.rs:493-548 | the windowed loop computes `Window` |
| `Fs.WindowIsSlice` | core/src/fs.rs:493-548 | a successful window lies within the allocation and is that slice of `Flat` |
| `Fs.ReadVirtualMeaning` | core/src/fs.rs:493-548 | with readable clusters a non-empty window is that slice of `Flat` if it ends within the allocation, else the error for reading past the end |
| `Fs.WindowOfSequentialRead` | core/src/fs.rs:493-548 | random access and sequential read return the same bytes |
| `Fragments.AssembleRuns` | core/src/fs.rs:290-297 | the runs of all fragments, in start-VCN order |
| `Fragments.AssemblyKeepsClusterMap` | core/src/fs.rs:351-356 | fragments that tile [0, N) assemble to a runlist of N clusters that maps each VCN where its owning fragment maps it |
| `Fragments.AssemblyKeepsBytes` | core/src/fs.rs:290-297 | `Flat` of the assembly is the concatenation of the fragments' `Flat`s |
| `Fragments.AssemblyIgnoresOrder` | core/src/fs.rs:290-297 | the order in which fragments were found does not matter |
| `Bootstrap.BootstrapMftRuns` | core/src/fs.rs:412-466 | succeeds iff every record named lies in the first fragment and parses; the result is the first fragment and the assembly of the fragments parsed there, and if they tile [0, N) it maps each VCN where its owner maps it; else the first error |
| `Bootstrap.VisitsAreDistinct` | core/src/fs.rs:442-447 | each extension record named is visited once, and no other |
| `Bootstrap.BootstrapSucceedsIff` | core/src/fs.rs:434-460 | with readable clusters the bootstrap gets through iff every record the attribute list names lies within the first fragment and parses, and it collects exactly the fragments parsed from those bytes |
| `Bootstrap.BootstrapIsComplete` | core/src/fs.rs:461-465 | the first fragment and the sorted rest are the whole cluster map of the `$MFT` |
| `Bootstrap.ChainedExtensionIsNotFound` | core/src/fs.rs:444-460 | an `$MFT` whose second extension record lies in the fragment the first one holds: covered by the runs assembled so far, and not found |
| `Runlist.ReadUint` | core/src/runlist.rs:101-108 | shifting and ORing gives the little-endian value, or nothing past the end |
| `Runlist.ReadSint` | core/src/runlist.rs:112-126 | shifting, ORing and sign extension give the two's complement value |
| `Runlist.SignExtends` | core/src/runlist.rs:118-125 | the sign-bit mask test and the ORed high bits are two's complement at every width |
| `Runlist.DecodePiece` | core/src/runlist.rs:40-77 | one header: the end of the list, a run, or the error of the check that fails first |
| `Runlist.Decode` | core/src/runlist.rs:34-83 | the loop computes `DecodeFrom` |
| `Runlist.DecodedIsSound` | core/src/runlist.rs:34-83 | from any bytes only positive lengths and LCNs below 2^63, and at most 2^20 runs |
| `Runlist.RunlistRoundTrip` | core/src/runlist.rs:34-126 | signed deltas of any sufficient widths, a zero byte and arbitrary bytes behind it decode to the same list |
| `Runlist.DecodesIff` | core/src/runlist.rs:34-126 | bytes decode to a list if and only if they are an encoding of it, followed by a zero byte, by nothing, or by anything after 2^20 runs |
| `Runlist.EightBytesSuffice` | core/src/runlist.rs:34-126 | every list of sound runs has such an encoding |
| `Runlist.CheckedTotal` | core/src/runlist.rs:90-98 | the sum of the lengths, or the error exactly when it exceeds 64 bits |
| `Vfs.CappedStreamIsPrefix` | core/src/data.rs:164-192 | for resident, plain and compressed streams alike a cap only cuts the full read short |
| `Vfs.StreamMeaning` | core/src/data.rs:164-192 | within the readers' limits every stream reads as its bytes up to the cap: the resident content, `Flat` cut at the size, or the contents of units of 2^compression_unit clusters |
| `Vfs.ReadAt` | core/src/vfs.rs:771-781 | fills the buffer with the slice [off, off + n) of the stream's bytes, reports its length and leaves the rest alone; for a plain stream also where the whole could not be read, as long as the clusters up to the window's end can |
| `Vfs.PlainCapSuffices` | core/src/vfs.rs:768-774 | the capped read of a stream too large or too damaged to be read whole still holds the window |
| `Vfs.Slack` | core/src/vfs.rs:720-738 | the loop with saturating arithmetic computes `SlackFrom` |
| `Vfs.SlackReportedIff` | core/src/vfs.rs:720-738 | slack is reported iff the file ends inside an allocated run |
| `Vfs.FileAndSlackTileAllocation` | core/src/vfs.rs:720-738 | the file's bytes followed by the disk bytes of the slack are the allocation up to the end of that run |
| `Record.ApplyFixup` | core/src/record.rs:133-189 | buffer and result in place, also where an error leaves the buffer half restored |
| `Record.UsaIsRead` | core/src/record.rs:134-170 | the array is read iff the little-endian words at 4 and 6 keep it and its sectors within the record, and is the one they name; else the buffer stays as it is |
| `Record.FixupMeaning` | core/src/record.rs:147-189 | for an array in front of the first tail, named by the words at 4 and 6: succeeds iff every protected tail equals the USN, restores the tails before the first that does not, names that one with both words, and changes nothing else |
| `Record.FixupInvertsProtection` | core/src/record.rs:147-189 | restores exactly the bytes that protecting all count - 1 sectors displaced |
| `Record.ProtectionMeaning` | core/src/record.rs:147-189 | protection puts the USN at every tail and the bytes that stood there into the array |
| `UsnReader.UsnJournalReader.constructor` | core/src/usn/reader.rs:35-48 | everything the stream holds is still to come |
| `UsnReader.UsnJournalReader.Compact` | core/src/usn/reader.rs:57-63 | unread bytes move to the front, and are dropped when they start there already |
| `UsnReader.UsnJournalReader.FillBuffer` | core/src/usn/reader.rs:50-83 | the buffer stays a window of the stream, moves on, and reports the end |
| `UsnReader.UsnJournalReader.SkipZeros` | core/src/usn/reader.rs:85-100 | stops in front of a non-zero word and loses no record on the way |
| `UsnReader.UsnJournalReader.Next` | core/src/usn/reader.rs:106-174 | returns the first record still to come and leaves exactly the others |
| `UsnJournal.ReadAll` | core/src/usn/reader.rs:106-174 | repeated calls yield what `Scan` yields, for any stream |
| `UsnJournal.ReaderIsPlainScan` | core/src/usn/reader.rs:50-174 | without overruns the buffered reader is the scan of the whole stream: wherever 8 to 65536 bytes are claimed and there, the decoder of version 2 or 3, else a word stepped over |
| `UsnJournal.ReadsWholeStreamIff` | core/src/usn/reader.rs:106-174 | a fresh reader yields the records of the whole stream, for every record decoder, if and only if no decodable record is left where it gives up |
| `UsnJournal.OverrunHidesRecord` | core/src/usn/reader.rs:142-151 | 72 bytes on which the reader yields nothing although a whole version 2 record stands in them |
| `StreamScan.ScanAgreesIff` | core/src/usn/reader.rs:85-174 | the same for any account of what stands where: losing nothing gives the plain scan, and a decoder that takes every record gives a loss away |
| `UsnJournal.ReaderDecodesJournal` | core/src/usn/reader.rs:50-174 | on a journal of zero words and padded records: every parseable record, in order, once, across refills |
| `UsnCarver.TryCarve` | core/src/usn/carver.rs:122-217 | accepts what the filter accepts, and counts each rejection under its own reason |
| `UsnCarver.CarvableIff` | core/src/usn/carver.rs:65-219 | what is carved at a position, said with its bytes: name length, name offset and time at 0x38, 0x3A, 0x20 (version 2) or 0x48, 0x4A, 0x30 (version 3), and the record parses |
| `UsnCarver.JudgedByBytes` | core/src/usn/carver.rs:122-217 | accepted iff the name stands behind the fixed part and the time is in the window; a bad time is told from a bad structure |
| `UsnCarver.WindowInYears` | core/src/usn/carver.rs:21-25 | the window opens at 2000-01-01 00:00 and closes at 2030-01-01 13:20 |
| `UsnCarver.CarveUsnRecords` | core/src/usn/carver.rs:65-118 | carved + timestamp rejections + structure rejections = candidates, each counter the number of such verdicts on the way |
| `UsnCarver.CarvedSpans` | core/src/usn/carver.rs:65-118 | on any bytes the spans are aligned, in bounds, increasing and disjoint, and every carvable position is carved or lies inside one |
| `UsnCarver.CarverAgreesWithReader` | core/src/usn/carver.rs:65-219 | on a journal whose records pass the filter, carver and reader return the same sequence |
| `Rules.GlobMatchesInner` | forensic/src/rules.rs:74-101 | ends; true only for matches; equals the match relation where text or pattern has no `*` byte |
| `Rules.GlobIsSound` | forensic/src/rules.rs:74-101 | a positive answer is a match, for all byte strings |
| `Rules.GlobIsComplete` | forensic/src/rules.rs:74-101 | retrying the last star only is enough |
| `Rules.ExactTexts` | forensic/src/rules.rs:81-84 | every pattern is answered correctly on a text if and only if the text has no `*` byte |

## Left out

- LZNT1 decoding: it lives in another crate and is a parameter, any function from bytes to optional bytes.
- USN record fields: `parse_usn_record_v2` and `parse_usn_record_v3` are parameters; reason flags are the three booleans Rewind looks at.
- I/O errors, seeking, the mutex and failed allocations: the disk is a byte string and a read fails exactly past its end.
- FillBuffer: a source that returns fewer bytes than asked for before its end is not modelled; reads fill the space or reach the end of the stream.
- Compressed: cluster size 0 and disks over 2^64 - 1 bytes are excluded, as the boot sector and the reader exclude them.
- CompressedReadMeaning: does not say which error a missing cluster gives, only that it is not the decoder's; runs on the disk miss none.
- FixupMeaning: takes the array to lie between the header fields and the tail of the first sector, where NTFS puts it; `UsaIsRead` and `ApplyFixup` are about every record.
- Names are opaque strings: no UTF-16 decoding, and no case folding in `glob_matches`, which only lowers both sides before the loop modelled here.
- Parsers of the boot sector, attribute headers, `$STANDARD_INFORMATION`, `$FILE_NAME`, indexes and attribute lists, the bounds checks of `attribute_runlist` and the record header are not modelled.
- BootstrapMftRuns: fix-up and attribute parsing of an extension record are one parser parameter.
- LogFile: the page walk tells apart only the opcodes that end or compensate a transaction; the table of names and `classify` are a parameter. `read_record_pages`, `parse_logfile` and the clearing heuristic are not modelled.
- Vfs: `slack` and `read_at` start from a stream whose attribute was found and whose fragments were assembled.
- Mft: `parse` itself, timestomping and the lookups.
- Hash maps are finite maps whose iteration order is arbitrary; `sort_by_key` is a stable sorting function, not an in-place array sort.
- The forensic auditor (anomaly grading, ransomware lists, confidences, regex rules, `$MFTMirr`, reparse tags, reports): lookup tables and one-branch decisions.
