# LamBoot in Dafny

LamBoot is a UEFI boot manager. This project models the parts of it where a mistake costs a boot: the
order of menu entries, the native PE loader, the cached ESP volume and its writer, byte reads over
block devices, boot counting in file names, paths and symlinks, the NVRAM self-install, crash-loop
detection, the verify-then-start sequence, and the depth check of the layer tool.

Each module follows one component. Code that computes is functions with lemmas about them; code that
works by updating things is methods and classes, proved against those functions. What firmware,
shim, devices and memory allocation do is a parameter: which writes they refuse, which variables they
fail to read, how much of a file they deliver. A theorem that needs something of them says what, where
possible as an exact condition. Text is a sequence of Unicode scalars, whose order is also the byte order of UTF-8;
binary data is a sequence of bytes; 64-bit and 32-bit limits, wrap-around and saturation are written
out where the code has them.

| file | component |
|---|---|
| `VersionOrder`, `EntryOrder`, `DefaultEntry` | version comparison, menu order, default entry |
| `LittleEndian`, `Relocation`, `PeLoader` | byte sequences, base relocations, header checks, image layout |
| `PeWriter` | a writer of headers, for the round trip through the parser |
| `ReadCache`, `EspVolume` | read cache, FAT volume, the ESP writer |
| `BlockSource` | block devices and files on them as byte sources |
| `BootCount` | counted entry names and their rename |
| `Paths`, `Symlinks` | canonical paths, symlink following |
| `SelfInstall` | load options, boot order, the self-install step |
| `LoaderVariables` | text variables for the operating system |
| `BootHealth`, `BootTrace` | crash counter over boots, trust log over boot attempts |
| `LayerGraph` | the module graph search |
| `Orders` | options, three-way results, lexicographic order |

## What is proved

**Versions.** The comparison scans two cursors and drops zeros on one side only, so tokens do not line
up. `CompareIsKeyOrder` maps every version to a key and shows that the scan is the lexicographic order
of keys; the swap law, transitivity and congruence for all strings follow. What the order says about
plain text is proved beside it: a common beginning cancels, numbers compare by their decimal value
(`NumbersByValue`), words as text, and after any text a tilde comes before the end, then dash, caret, dot,
letters, numbers.

**Menu order.** `SortCompare` mixes versioned and unversioned entries and is then not transitive;
`ThreeEntryCycle` and `MixedEntriesCycle` show it. `TransitiveIff` gives the exact condition on a list:
no unversioned entry stands between two versioned ones of its group that version and name order
differently. Where it holds, any two sorted menus of the same entries agree position by position up to
ties, and no entry stands before a newer one of its system (`NewerStandsFirst`). That a sort leaves such
a menu is its promise for an order; a cycle can void it.

**Relocation.** Rebasing from A to B and on to C is rebasing from A to C, and going back restores the
image, when any two fixups are disjoint or end together; `PairComposesIff` shows that for two fixups
this is the exact condition. Success never depends on image contents. An address with a slot of its own
grows by the new base minus the old one (`PointersFollow`), so an address in the image stays one. A
directory as a linker lays it out names exactly the slots that were put into it (`DirectoryReads`), and the
parser finds every field of headers written width by width (`WrittenImageReads`).

**Cache.** What is cached is always a beginning of the recently read keys (`CachedIsRecent`). A range read
gives the bytes from its offset on, and ranges that cover a file give the file (`CoveringReads`).
`CacheIsTransparent` compares a cached run with the same run on a bare filesystem, step by
step: as long as no read asks for a path in doubt, every reply is the right one or what the firmware
made of it in that very step. A write puts its file in doubt under every spelling that is cached,
because FAT ignores case and the cache does not; success clears the spelling that was written. A short
delivery puts its path in doubt, because it is cached as if it were all. Four results are exact over all
outcomes. A successful change other than a rename is safe if and only if the file is cached under no
other spelling (`SuccessIsSafeIff`), a failed one if and only if the file is not cached at all
(`FailureIsSafeIff`), because a failed write returns before the invalidation although the old file may
be gone. For renames, `RenameSuccessIsSafeIff` and `RenameFailureIsSafeIff` give the conditions on both
names. `RenameIsSafeIff` says exactly when a rename can lose content: it copies what the firmware
delivers of the old file and then deletes that file, so one that reads n bytes keeps the content exactly
when n is all of it (`ShortRenameKeepsIff`).

**Block sources.** `FillAt` succeeds only if the range lies in the source and its blocks can be read,
and then gives that slice, through any nesting of files in any pieces and any short reads. It always
succeeds then unless some holder answers with nothing before the end. No block past the last is asked
for and the last check of the alignment arithmetic never fails.

**Boot counting.** Parsing a decremented name gives the same identifier and one try fewer in the same
digit width; exactly as many decrements as tries reach the bad state. Over a whole run, tries are
conserved if and only if digits follow the last dash of the name and the done count never saturates.
The announced path is its bytes, each widened to 16 bits, so it reads back exactly when it is ASCII and
not cut (`AnnouncementReadsBackIff`).

**Crash loops.** After boots that read everything and write everything or nothing, an assessment counts
the failed boots in a row exactly when it can read what that count depends on (`CounterIsCrashesIff`); a
failed read of the state clears any count (`FailedReadClears`). A boot that can read and write reports a
crash loop exactly at the threshold; one that cannot write reads the count stored before it and needs
one crash more (`CrashLoopIff`, `ReadOnlyBootMissesCrash`). Whichever single writes are refused and
whichever reads fail, no crash loop is reported earlier than the threshold allows after a stored success
(`NoEarlyAlarm`).

**Self-install.** The scan takes a slot that it cannot read for a free one, and an order that it cannot
read for an empty one. So a creation leaves all other entries alone exactly when the slot it chose was
absent, or held that very entry (`OthersKeptIff`, `UnreadableEntryIsLost`), and the old order is a suffix of
the new one exactly when it could be read, was empty or just the new entry, or was not written
(`OrderIsExtendedIff`, `UnreadableOrderIsLost`). After a creation all later calls of a run find that
entry and write nothing, exactly when each that scans can read it (`CreatedOnceIff`); a description with
a NUL is never found again (`CreatedIsFoundIff`).

**Trust log.** Every start is preceded by the acceptance that its own attempt began with. A native start
always runs the accepted bytes. A firmware start compares no digest, and runs them exactly when the
buffer did not change after the acceptance. Which route starts is an exact function of what the attempt
meets, in every run (`StartIsChosen`, `ChosenRouteStarts`).

## Where code and comments differ

The model follows the code.

- `bls.rs` says `+3` becomes `+2-1`. The code prints a done count only if digits follow the last dash
  anywhere in the name: `entry+3.conf` becomes `entry+2.conf`, `linux-6+3.conf` becomes
  `linux-6+2-1.conf` (`BootCount.PlainName`).
- `fs_writer.rs` says the cache is invalidated on every write. It is on every successful one
  (`EspVolume.FailureIsSafeIff`).
- `fs_writer.rs` calls the rename atomic. It copies and then deletes (`EspVolume.RenameIsSafeIff`).
- `boot.rs` says that a digest mismatch returns to the menu. It does for a UKI; Linux and ISO boots fall
  back to the firmware loader on every native error (`BootTrace.MismatchStartsIff`).
- `boot_entry.rs` calls the self-install idempotent and says that it leaves every other entry untouched.
  Both hold if the variables it depends on can be read (`SelfInstall.CreatedOnceIff`, `SelfInstall.OthersKeptIff`).
- `health.rs` calls the buffer of the announced path UTF-16. Only ASCII survives in it
  (`LoaderVariables.AnnouncementReadsBackIff`).
- `health.rs` says that an assessment sets the state to Booting. After a change of VM generation it
  stays Fresh, so that boot is never counted (`BootHealth.StoreTellsHistory`). No code writes the crash-loop state.

## Model

| member | source | states |
|---|---|---|
| VersionOrder.CompareIsKeyOrder | lamboot-core/src/bls_parse.rs:320-475 | the scan equals the lexicographic order of keys, and is Equal exactly for equal keys |
| VersionOrder.Swap | lamboot-core/src/bls_parse.rs:320-475 | swapping the arguments reverses the result |
| VersionOrder.Transitive | lamboot-core/src/bls_parse.rs:320-475 | "not greater" is transitive on all strings |
| VersionOrder.EqualIsCongruent | lamboot-core/src/bls_parse.rs:320-475 | versions that compare Equal compare alike with every third one |
| VersionOrder.CompareRuns | lamboot-core/src/bls_parse.rs:408-470 | numbers, zero runs and letters compare as their keys do, although zeros before letters vanish on one side |
| VersionOrder.PrefixCancels | lamboot-core/src/bls_parse.rs:320-475 | a common beginning that no number or word crosses never matters |
| VersionOrder.NumbersByValue | lamboot-core/src/bls_parse.rs:408-443 | after any text that does not end in a digit, two strings of digits compare as the decimal numbers they stand for |
| VersionOrder.WordsAsText | lamboot-core/src/bls_parse.rs:445-464 | after any text that does not end in a letter, two words compare as text |
| VersionOrder.MarksAndEnd | lamboot-core/src/bls_parse.rs:335-361 | a version comes after itself with a tilde and before itself with a dash, caret or dot, whatever follows |
| VersionOrder.MarksInOrder | lamboot-core/src/bls_parse.rs:335-406 | tilde before dash before caret before dot, whatever follows them |
| VersionOrder.MarksBelowRuns | lamboot-core/src/bls_parse.rs:335-406 | every mark comes before letters and digits |
| VersionOrder.LettersBelowNumbers | lamboot-core/src/bls_parse.rs:408-443 | letters come before every number but zero |
| VersionOrder.ZerosBeforeLetters | lamboot-core/src/bls_parse.rs:408-443 | zeros in front of letters do not count |
| VersionOrder.SeparatorsVanish | lamboot-core/src/bls_parse.rs:327-333 | other characters can be left out where no number or word would join |
| VersionOrder.VersionCompare | lamboot-core/src/bls_parse.rs:320-470 | the two-cursor loop ends on every input and computes the specified comparison |
| EntryOrder.SortSwap | lamboot-core/src/bls_parse.rs:225-314 | the swap law for all entries in both modes |
| EntryOrder.GroupsFirst | lamboot-core/src/bls_parse.rs:225-305 | the comparison is a group order refined inside groups |
| EntryOrder.NoTriesLast | lamboot-core/src/bls_parse.rs:226-235 | an entry with no tries left comes after every other one |
| EntryOrder.SortKeysAscend | lamboot-core/src/bls_parse.rs:257-273 | entries with a sort key come first, by the bytes of their keys |
| EntryOrder.MachinesAscend | lamboot-core/src/bls_parse.rs:237-281 | then entries with a machine id, by the bytes of their ids |
| EntryOrder.NewerFirst | lamboot-core/src/bls_parse.rs:243-301 | among versions of one system the newer comes first, and between equal ones the name that is newer as a version |
| EntryOrder.NamesDecide | lamboot-core/src/bls_parse.rs:291-304 | without sort keys names decide, newest first exactly when both entries have versions |
| EntryOrder.UnversionedByName | lamboot-core/src/bls_parse.rs:291-304 | entries of one system without versions come by the bytes of their names |
| EntryOrder.TransitiveIff | lamboot-core/src/bls_parse.rs:225-314 | transitive on a list exactly when no unversioned entry separates two versioned ones that version and name order differently |
| EntryOrder.UniformIsTransitive | lamboot-core/src/bls_parse.rs:225-314 | transitive when all entries or none carry a version |
| EntryOrder.MixedEntriesCycle | lamboot-core/src/bls_parse.rs:299-303 | the family of mixed triples that form a cycle |
| EntryOrder.ThreeEntryCycle | lamboot-core/src/bls_parse.rs:299-303 | a concrete three-entry cycle in both modes |
| EntryOrder.BadLast | lamboot-core/src/bls.rs:213-214 | in every menu whose neighbours are in order, which is the promise of a sort that a cycle can void, each bad entry stands after each other one |
| EntryOrder.NewerStandsFirst | lamboot-core/src/bls.rs:213-214 | in a menu whose neighbours are in order and on which the comparison is transitive, no entry stands before a newer one of its system |
| EntryOrder.MenuIsDetermined | lamboot-core/src/bls.rs:213-214 | two menus of the same entries with neighbours in order have tied entries at every position |
| DefaultEntry.NewestMatch | lamboot-core/src/policy.rs:559-587 | for every lower-case function: the first eligible match that no other eligible match exceeds, or none if nothing matches |
| DefaultEntry.SelectDefault | lamboot-core/src/policy.rs:550-599 | for every lower-case function: the newest match, else the first exact identifier, else none |
| DefaultEntry.FirstNewestIsUnique | lamboot-core/src/policy.rs:550-599 | that entry is determined by the order alone |
| DefaultEntry.PlainPattern | lamboot-core/src/policy.rs:496-521 | a pattern without a star accepts exactly the id that is the same in lower case |
| DefaultEntry.StarInFront | lamboot-core/src/policy.rs:510-512 | a star in front accepts exactly the ids that end in the text |
| DefaultEntry.StarBehind | lamboot-core/src/policy.rs:514-517 | a star behind accepts exactly the ids that begin with the text |
| DefaultEntry.StarsAround | lamboot-core/src/policy.rs:505-508 | stars at both ends accept exactly the ids that contain the text |
| LittleEndian.AddAdd | lamboot-core/src/pe_loader_pure.rs:604-630 | wrapping additions of a slot compose |
| LittleEndian.AddToBytes | lamboot-core/src/pe_loader_pure.rs:604-630 | truncation commutes with addition |
| Relocation.BlocksFit | lamboot-core/src/pe_loader_pure.rs:553-641 | every fixup of an accepted directory lies inside the image |
| Relocation.DirectoryReads | lamboot-core/src/pe_loader_pure.rs:553-641 | a directory as a linker lays it out is accepted exactly when all its slots fit, and then names exactly those, in order |
| Relocation.OutsideUnchanged | lamboot-core/src/pe_loader_pure.rs:553-641 | bytes outside all slots keep their value |
| Relocation.RelocatedTwice | lamboot-core/src/pe_loader_pure.rs:547-642 | relocating by d and then by e is relocating by their sum, for fixups pairwise disjoint or ending together |
| Relocation.RebaseComposes | lamboot-core/src/pe_loader_pure.rs:547-642 | A to B to C equals A to C on every accepted directory of that kind |
| Relocation.RebaseRestores | lamboot-core/src/pe_loader_pure.rs:547-642 | going back restores the image |
| Relocation.PointersFollow | lamboot-core/src/pe_loader_pure.rs:547-642 | on every directory, a slot that no other fixup touches grows by the new base minus the old one, modulo its width |
| Relocation.AddressFollows | lamboot-core/src/pe_loader_pure.rs:604-630 | so the address of x at the old base becomes the address of x at the new one |
| Relocation.PairComposesIff | lamboot-core/src/pe_loader_pure.rs:547-642 | two fixups compose for all images and moves exactly when they are disjoint or end together |
| Relocation.RunBlocksRelocates | lamboot-core/src/pe_loader_pure.rs:553-641 | patching while reading the directory equals reading it all and then patching |
| Relocation.Patch | lamboot-core/src/pe_loader_pure.rs:604-630 | the in-place 32-bit and 64-bit additions wrap in their slot and touch nothing else |
| Relocation.ApplyRelocations | lamboot-core/src/pe_loader_pure.rs:547-642 | the block loop ends; its error depends only on the directory, the size and whether the image moves; on success the array is the rebased image, in which every slot of its own has grown by the actual minus the preferred base |
| PeLoader.ParseHeaders | lamboot-core/src/pe_loader_pure.rs:265-434 | the sequential parser returns the specified summary or the first error |
| PeLoader.ValidateHeaders | lamboot-core/src/pe_loader_pure.rs:463-532 | accepts exactly the acceptable summaries |
| PeLoader.SummaryFacts | lamboot-core/src/pe_loader_pure.rs:265-434 | every parsed summary copies no more than a section's virtual size, has a 64-bit base, and flags the entry exactly when an executable section holds it |
| PeLoader.LastSectionWins | lamboot-core/src/pe_loader.rs:186-207 | a byte comes from the last section copy that covers it |
| PeLoader.UncoveredIsZero | lamboot-core/src/pe_loader.rs:186-207 | a byte that no section copy covers is zero |
| PeLoader.CopySections | lamboot-core/src/pe_loader.rs:186-207 | the in-place copies stay inside input and image and give that layout |
| PeLoader.MoveImage | lamboot-core/src/pe_loader.rs:210-278 | relocates in place exactly when the image must move, with each error case |
| PeLoader.LoadPe | lamboot-core/src/pe_loader.rs:142-321 | succeeds exactly on loadable input whose protocol is installed, and the image is then the moved layout |
| PeLoader.EntryIsInside | lamboot-core/src/pe_loader_pure.rs:463-532 | the entry of accepted input lies in an executable section inside the image |
| PeLoader.MovedIsRebased | lamboot-core/src/pe_loader.rs:210-278 | loading at any base is rebasing the layout |
| PeLoader.LoadedAnywhereIsTheSame | lamboot-core/src/pe_loader.rs:210-278 | images loaded at two bases are rebasings of each other |
| PeLoader.LoadedPointersFollow | lamboot-core/src/pe_loader.rs:210-278 | in an image loaded at any base such a slot holds what the layout holds plus the move |
| PeWriter.WrittenImageReads | lamboot-core/src/pe_loader_pure.rs:265-434 | headers and section rows written field by field parse back to every field, directory, section and executable bit |
| PeWriter.WrittenIsAcceptedIff | lamboot-core/src/pe_loader_pure.rs:463-532 | a written image is accepted exactly when it is for this machine, an EFI program, small enough, without imports and TLS, in bounds, and enters an executable section |
| PeLoader.Pages | lamboot-core/src/pe_loader.rs:427-454 | the pages cover the image with less than a page to spare |
| ReadCache.VolumeCache.Get | lamboot-core/src/fs.rs:146-152 | returns the stored data and moves its entry to the front; the cache stays valid |
| ReadCache.VolumeCache.Insert | lamboot-core/src/fs.rs:154-168 | evicts from the back until the new entry fits; byte count, bound and unique keys hold again |
| ReadCache.VolumeCache.InvalidatePath | lamboot-core/src/fs.rs:170-183 | drops exactly the entries of the path; byte count, bound and unique keys hold again |
| ReadCache.InsertKeepsLongestPrefix | lamboot-core/src/fs.rs:154-168 | an insertion that fits keeps exactly the longest most-recently-used prefix that fits beside it |
| ReadCache.CachedIsRecent | lamboot-core/src/fs.rs:146-168 | after every run of reads what is cached is a beginning of the keys read, most recent first |
| ReadCache.TouchedIsSound | lamboot-core/src/fs.rs:146-152 | a hit keeps the bound, unique keys and the entries |
| ReadCache.InsertedIsSound | lamboot-core/src/fs.rs:154-168 | an insertion keeps the bound and unique keys |
| ReadCache.WithoutMembers | lamboot-core/src/fs.rs:170-183 | invalidation keeps exactly the entries of other paths |
| EspVolume.WriteIsCoherent | lamboot-core/src/fs_writer.rs:82-141 | after any operation, failed or not, every entry outside the doubtful paths is what the filesystem answers |
| EspVolume.ReadIsCoherent | lamboot-core/src/fs.rs:313-348 | a cached read of a path not in doubt is the uncached answer or what the firmware delivers of it, and keeps the cache coherent |
| EspVolume.RangeRead | lamboot-core/src/fs_backend_fat.rs:240-248 | a range read gives the bytes from its offset on, as many as asked for or left, and fails past the end |
| EspVolume.AdjacentReads | lamboot-core/src/fs_backend_fat.rs:240-248 | two adjacent range reads make one |
| EspVolume.CoveringReads | lamboot-core/src/fs_backend_fat.rs:220-248 | range reads that cover a file make the full read |
| EspVolume.SecondReadHits | lamboot-core/src/fs.rs:313-348 | what was read and fits is read again the same, whatever the firmware does and the files hold |
| EspVolume.CacheIsTransparent | lamboot-core/src/fs.rs:313-348 | in every run whose reads avoid doubtful paths each reply is that of a volume without a cache, or the delivery of that very step |
| EspVolume.SpelledRunIsTransparent | lamboot-core/src/fs_writer.rs:82-141 | so it is in every run of successful changes and of complete or failed reads that spells each file one way |
| EspVolume.SuccessIsSafeIff | lamboot-core/src/fs_writer.rs:82-141 | every successful change other than a rename keeps the cache coherent exactly when the file is cached under no other spelling |
| EspVolume.FailureIsSafeIff | lamboot-core/src/fs_writer.rs:82-141 | every failed change other than a rename keeps it coherent exactly when the file is not cached |
| EspVolume.RenameSuccessIsSafeIff | lamboot-core/src/fs_writer.rs:111-124 | for every delivery of the old file: every successful rename keeps it coherent exactly when the old file is cached under no third spelling and the new one only with bytes that the delivered content has too, or when none can succeed |
| EspVolume.RenameFailureIsSafeIff | lamboot-core/src/fs_writer.rs:111-124 | every failed rename keeps it coherent exactly when the old file cannot be read or the new one is not cached |
| EspVolume.PerformFrame | lamboot-core/src/fs_backend_fat.rs:349-495 | an operation changes no file but the ones it names |
| EspVolume.WriteThenRead | lamboot-core/src/fs_backend_fat.rs:390-412 | a successful write reads back exactly when the old file was deleted or was not longer |
| EspVolume.AppendThenRead | lamboot-core/src/fs_backend_fat.rs:414-430 | a completed append leaves the old content followed by the new bytes |
| EspVolume.AppendsAgree | lamboot-core/src/fs_backend_fat.rs:414-473 | after a complete read the rewriting and the positional append leave the same file |
| EspVolume.AppendKeepsIff | lamboot-core/src/fs_backend_fat.rs:414-430 | a rewriting append keeps the old content in front exactly when the new data begins with whatever its read left out |
| EspVolume.RenameIsSafeIff | lamboot-core/src/fs_backend_fat.rs:349-388 | for every delivery of the old file: no later outcome of a rename loses the content exactly when the read fails, the new name is a directory, or the names differ, the read brings all and the new name is not a longer file |
| EspVolume.ShortRenameKeepsIff | lamboot-core/src/fs_backend_fat.rs:349-388 | a rename that reads n bytes and otherwise completes keeps the content exactly when n is at least its length |
| EspVolume.SimpleFileSystem.Write | lamboot-core/src/fs_backend_fat.rs:390-412 | delete, create, write in place, for every outcome of each; success leaves the data in front, alone if the delete worked, and no other file changes |
| EspVolume.SimpleFileSystem.Append | lamboot-core/src/fs_backend_fat.rs:414-430 | read, extend and rewrite in place, for every delivery of the read; no other file changes |
| EspVolume.SimpleFileSystem.TrueAppend | lamboot-core/src/fs_backend_fat.rs:452-473 | create, seek and extend in place; what was there stays in front for every outcome |
| EspVolume.SimpleFileSystem.Rename | lamboot-core/src/fs_backend_fat.rs:349-388 | read, write and delete in place, for every delivery of the read; success removes the old name, failure touches the new name only |
| EspVolume.SimpleFileSystem.Delete | lamboot-core/src/fs_backend_fat.rs:485-495 | success removes exactly that file, every error changes nothing |
| EspVolume.SimpleFileSystem.EnsureDir | lamboot-core/src/fs_backend_fat.rs:475-481 | after success the name exists; nothing else changes |
| EspVolume.Volume.Read | lamboot-core/src/fs.rs:313-326 | a full read of a path not in doubt is what the filesystem holds, or what the firmware delivers of it |
| EspVolume.Volume.ReadAt | lamboot-core/src/fs.rs:333-348 | a range read of a path not in doubt is that range of the file, or what the firmware delivers of it; byte i of a complete one is byte offset + i of the file |
| EspVolume.EspWriter.Apply | lamboot-core/src/fs_writer.rs:82-141 | changes the files, invalidates only after success, and keeps the volume valid |
| EspVolume.EspWriter.RenameIn | lamboot-core/src/fs_writer.rs:111-124 | joins both names first; a bad name changes nothing |
| BlockSource.AlignedReadNone | lamboot-core/src/block_source.rs:389-408 | no answer exactly for an empty range, no block size or an overflow: the last check never fails |
| BlockSource.AlignedReadSome | lamboot-core/src/block_source.rs:389-408 | the read covers exactly the blocks of the range, none past the last, and the offset finds the bytes |
| BlockSource.MediaLenExact | lamboot-core/src/block_source.rs:277-280 | the saturating length is the true one exactly when that fits in 64 bits |
| BlockSource.DeviceRead | lamboot-core/src/block_source.rs:316-343 | a device read inside the media is always defined, stays on the device and touches the blocks of its bytes only |
| BlockSource.Source.FromBlockIo | lamboot-core/src/block_source.rs:269-289 | refuses exactly devices with no block size |
| BlockSource.Source.Seek | lamboot-core/src/block_source.rs:345-370 | moves exactly where the signed 64-bit arithmetic allows, by exactly the given amount, else stays |
| BlockSource.Source.Read | lamboot-core/src/block_source.rs:316-343 | reads some bytes of the content unless at the end, at unreadable blocks or from a silent holder, and moves past them |
| BlockSource.Source.ReadHeld | lamboot-core/src/block_source.rs:475-499 | a file read goes through its holder, which may answer with fewer bytes or none |
| BlockSource.Source.FillAt | lamboot-core/src/block_source.rs:100-119 | succeeds only on a readable range inside the source, and then with that slice; always does so unless a holder answers with nothing before the end |
| BlockSource.Source.ByteIsOnDevice | lamboot-core/src/block_source.rs:410-454 | each byte of a file nested to any depth is one byte of the device, readable as that is |
| BlockSource.HeldRun | lamboot-core/src/block_source.rs:475-499 | a run of a file in pieces is a slice of its holder, and can be read exactly when that can |
| BlockSource.OnePiece | lamboot-core/src/block_source.rs:410-454 | a file in one piece is a slice of its holder |
| BlockSource.PiecesInOrder | lamboot-core/src/block_source.rs:410-454 | pieces follow each other as they are listed |
| BootCount.NumeralParses | lamboot-core/src/bls.rs:249-258 | a padded numeral parses back to its number |
| BootCount.DecrementedParses | lamboot-core/src/bls.rs:231-260 | parsing the next name gives the same identifier, one try fewer in the same width, and the done count it printed; a name that prints one goes on doing so |
| BootCount.TriesConservedIff | lamboot-core/src/bls.rs:231-260 | after n decrements left plus done has not grown, is conserved exactly when a done count is printed that does not saturate, and the done count has then grown by n |
| BootCount.AfterDecrements | lamboot-core/src/bls.rs:231-260 | n decrements use up n tries of the same entry in the same width |
| BootCount.BadAfterExactly | lamboot-core/src/bls_parse.rs:183-190 | exactly as many decrements as tries reach the bad state, and only there the step refuses |
| BootCount.PlainName | lamboot-core/src/bls.rs:246-258 | a name without a done count gains one exactly when its identifier has digits after its last dash |
| BootCount.PlainStaysPlain | lamboot-core/src/bls.rs:246-258 | without a dash the next name has no done count |
| BootCount.CountedName | lamboot-core/src/bls.rs:246-260 | a name with a done count becomes the same text with one try fewer and one more done, in the same widths |
| BootCount.LeftDigits | lamboot-core/src/bls_parse.rs:479-488 | the counted width is that of the parsed numeral |
| BootCount.NextNameDiffers | lamboot-core/src/bls.rs:260 | the next name is another file, case ignored |
| BootCount.DecrementIsSafeIff | lamboot-core/src/bls.rs:262-275 | for every delivery of the entry: the rename loses it in no later outcome exactly when the read fails, the next name is a directory, or the read brings all and no longer file has the next name |
| BootCount.DecrementBootCount | lamboot-core/src/bls.rs:231-294 | refuses or renames; returns the new name and announces the bytes of its path exactly after success |
| LoaderVariables.WriteBootCountPath | lamboot-core/src/health.rs:224-236 | writes the first 256 bytes of the path, widened, with a NUL |
| LoaderVariables.BootCountPathReads | lamboot-core/src/health.rs:224-236 | a reader finds exactly those units before the NUL |
| LoaderVariables.AnnouncementReadsBackIff | lamboot-core/src/health.rs:224-236 | a path reads back exactly when it is ASCII and at most 256 characters long |
| Paths.FromStr | lamboot-core/src/fs_types.rs:55-86 | the loop over a segment stack computes the canonical path |
| Paths.CanonicalIsClean | lamboot-core/src/fs_types.rs:55-86 | no result has an empty, `.` or `..` segment |
| Paths.CanonicalIsFixed | lamboot-core/src/fs_types.rs:55-86 | canonicalizing again changes nothing |
| Paths.CanonicalErrors | lamboot-core/src/fs_types.rs:55-86 | each error exactly when: empty, not absolute, some prefix of segments leaves the root |
| Paths.JoinResolves | lamboot-core/src/fs_types.rs:159-170 | joining runs the child's segments on from the path's |
| Paths.JoinJoin | lamboot-core/src/fs_types.rs:159-170 | two relative joins are one join of the concatenation |
| Paths.JoinEmptyThenSlash | lamboot-core/src/fs_types.rs:159-170 | after an empty child the concatenation is absolute and forgets the path |
| Paths.ParentJoinsFileName | lamboot-core/src/fs_types.rs:139-157 | joining parent and file name restores every canonical path but the root |
| Paths.DotsLeadUp | lamboot-core/src/fs_types.rs:55-86 | two dots lead from every canonical path to its parent, and from the root to the error |
| Paths.DownAndUp | lamboot-core/src/fs_types.rs:55-86 | entering a directory and leaving it leads back |
| Paths.UnderIsJoin | lamboot-core/src/fs_types.rs:139-170 | joining a clean name adds it after a slash, and parent and file name take it off |
| Symlinks.ResolveFollowing | lamboot-core/src/fs_backend_btrfs.rs:135-156 | the bounded loop computes the specified outcome on every link graph |
| Symlinks.NameStaysInDirectory | lamboot-core/src/fs_backend_btrfs.rs:149-153 | a link whose target is a name leads to that name in its own directory |
| Symlinks.DotsLeaveDirectory | lamboot-core/src/fs_backend_btrfs.rs:149-153 | a target with two dots in front leads to the directory above, and nowhere from the root |
| Symlinks.AbsoluteTargetReplaces | lamboot-core/src/fs_backend_btrfs.rs:149-153 | a canonical target is where the link leads |
| Symlinks.FoundIff | lamboot-core/src/fs_backend_btrfs.rs:135-156 | a node is found exactly when a chain of links within the bound ends at it |
| Symlinks.CycleIsTooDeep | lamboot-core/src/fs_backend_btrfs.rs:135-156 | a cycle of links ends in the depth error |
| Symlinks.ResolutionIsChainEnd | lamboot-core/src/fs_backend_btrfs.rs:135-156 | from any path the found node is the end of its chain of at most 40 links |
| Symlinks.ChainIsCanonical | lamboot-core/src/fs_backend_btrfs.rs:135-156 | every path on the way is canonical |
| SelfInstall.DecodeEncode | lamboot-core/src/boot_entry_pure.rs:38-79 | UTF-16 text decodes to itself, surrogate pairs included |
| SelfInstall.DescriptionRoundTrip | lamboot-core/src/boot_entry_pure.rs:38-79 | an encoded description reads back up to its first NUL, so exactly without one |
| SelfInstall.LoadOptionRoundTripIff | lamboot-core/src/boot_entry_pure.rs:38-56 | a reader of section 3.1.3 of the UEFI specification finds all four fields as given exactly when the description has no NUL and the path is shorter than 64 KiB |
| SelfInstall.ParseDescription | lamboot-core/src/boot_entry_pure.rs:62-79 | the loop computes the specified description |
| SelfInstall.WriteLoadOption | lamboot-core/src/boot_entry_pure.rs:38-56 | a reader of section 3.1.3 of the UEFI specification gets every field back |
| SelfInstall.BootOrderRoundTrip | lamboot-core/src/boot_entry_pure.rs:82-97 | an encoded order decodes to itself |
| SelfInstall.BootVarNameInjective | lamboot-core/src/boot_entry_pure.rs:122-124 | every number has its own variable, never the boot order |
| SelfInstall.BootVarNameReads | lamboot-core/src/boot_entry_pure.rs:122-124 | the name is `Boot` and the number in four upper-case hexadecimal digits |
| SelfInstall.FreeIsFirst | lamboot-core/src/boot_entry_pure.rs:116-118 | no slot below the chosen one is free |
| SelfInstall.Nvram.EnsureNamedBootEntry | lamboot-core/src/boot_entry.rs:129-223 | device path, scan, new slot and new order in place, for every refused write and every set of unreadable variables; only a slot that looked free and the order can change |
| SelfInstall.InstalledFrame | lamboot-core/src/boot_entry.rs:129-223 | only a creation changes anything, and then only the slot that looked free and the boot order |
| SelfInstall.NewOptionReads | lamboot-core/src/boot_entry.rs:196-201 | the firmware reads the new entry as an active option for the path, without further data |
| SelfInstall.OthersKeptIff | lamboot-core/src/boot_entry.rs:171-205 | a creation keeps all other entries exactly when its slot was absent or held that very entry; a slot that was there was unreadable |
| SelfInstall.UnreadableEntryIsLost | lamboot-core/src/boot_entry.rs:171-205 | an entry that cannot be read is overwritten |
| SelfInstall.OrderIsExtendedIff | lamboot-core/src/boot_entry.rs:207-220 | the old order is a suffix of the new one exactly when it can be read, is not written, or was empty or just the new entry; the new one has the entry unless the write is refused, and where the old one is kept gains it in front only if it was missing |
| SelfInstall.UnreadableOrderIsLost | lamboot-core/src/boot_entry.rs:207-220 | an order that cannot be read is replaced by the new entry alone |
| SelfInstall.CreatedIsFoundIff | lamboot-core/src/boot_entry.rs:171-223 | after a creation a call finds that entry and changes nothing exactly when the description has no NUL and the call can read the slot |
| SelfInstall.PresentForeverIff | lamboot-core/src/boot_entry.rs:129-192 | all calls of a run find the first slot that carries the description exactly when each that scans can read it |
| SelfInstall.CreatedOnceIff | lamboot-core/src/boot_entry.rs:129-223 | in every run, all calls after a creation that get as far find that entry, and so none creates another, exactly when they can read it |
| BootHealth.HealthStore.AssessBootHealth | lamboot-core/src/health.rs:147-197 | the step on the store for every refusal of single writes and every failure of single reads; the count is returned whether or not it is stored, and grows by at most one, only after an unfinished boot |
| BootHealth.HealthStore.MarkBootSuccess | lamboot-core/src/health.rs:239-245 | succeeds exactly when both writes do, and then success is stored with a cleared counter; a refused state write leaves everything |
| BootHealth.StoreTellsHistory | lamboot-core/src/health.rs:147-197 | if each boot reads all and writes all or nothing, generation, state and counter are what the history says; the crash-loop state never occurs |
| BootHealth.CounterIsCrashesIff | lamboot-core/src/health.rs:147-197 | after such boots the count is the number of failed boots in a row, capped at 255 and 0 in a new generation, exactly when that is 0 or the state, the generation compared with and any stored count can be read |
| BootHealth.FailedReadClears | lamboot-core/src/health.rs:70-91 | a failed read of the state clears a count of any height |
| BootHealth.CrashLoopIff | lamboot-core/src/health.rs:200-202 | a crash loop is reported exactly when that number can be read and reaches the capped threshold in the same generation, or exceeds it if this boot cannot write; a threshold of 0 always reports |
| BootHealth.ReadOnlyBootMissesCrash | lamboot-core/src/health.rs:200-202 | a crash that a writing boot reports and one that cannot write misses |
| BootHealth.NeverCrashLoopState | lamboot-core/src/health.rs:147-197 | the crash-loop state never occurs, whichever writes are refused and whichever reads fail |
| BootHealth.NoEarlyAlarm | lamboot-core/src/policy.rs:285-295 | after a stored success no crash loop is reported before as many boots as the capped threshold, whichever writes are refused and whichever reads fail |
| BootHealth.StaleCounterMisleads | lamboot-core/src/health.rs:239-245 | a counter that could not be cleared reports a crash loop right after a success |
| BootTrace.Booter.VerifyKernelBytes | lamboot-core/src/boot.rs:1106-1185 | refuses exactly when shim is active, still there and rejects; one record with the token of the posture probed again |
| BootTrace.Booter.NativeLoadAndStart | lamboot-core/src/boot.rs:1199-1303 | starts only after equal digests; options that cannot be encoded leave no record, every other error exactly one |
| BootTrace.Booter.FirmwareLoadAndStart | lamboot-core/src/boot.rs:1320-1366 | starts only after the firmware loaded the image and took the options, and what starts is what it was given |
| BootTrace.Booter.Boot | lamboot-core/src/boot.rs:853-984 | the trace of an attempt, with the fallback for Linux and ISO; a rejected image leaves one record and a security violation, and success ends with a start of the checked bytes or of those given to the firmware |
| BootTrace.EveryRunIsSafe | lamboot-core/src/boot.rs:495-551 | no run of attempts breaks the safety monitor |
| BootTrace.StartIsCovered | lamboot-core/src/boot.rs:1106-1366 | in a log the monitor passes, each start has its own acceptance before it, and what starts is what was loaded after that |
| BootTrace.TailShape | lamboot-core/src/boot.rs:853-984 | an attempt verifies once, first, and starts at most once, last |
| BootTrace.EveryStartIsCovered | lamboot-core/src/boot.rs:658-683 | in every run each start has the acceptance its own attempt began with; it runs the accepted bytes exactly if it is native or the buffer did not change, and a native one under Auto is never unchecked |
| BootTrace.AttemptStarts | lamboot-core/src/boot.rs:853-984 | what an attempt starts, natively or through the firmware, is an exact function of mode, posture, shim, digests and loaders |
| BootTrace.ChosenRouteStarts | lamboot-core/src/boot.rs:853-984 | in every run, an attempt that chooses a route starts it |
| BootTrace.StartIsChosen | lamboot-core/src/boot_route_pure.rs:59-71 | in every run, each start is the route its own attempt chose, and under `Never` it is not native |
| BootTrace.RecordsIff | lamboot-core/src/boot.rs:1199-1366 | fallback, failed native load and use of the firmware loader are recorded exactly when they happen |
| BootTrace.MismatchStartsIff | lamboot-core/src/boot.rs:1251-1266 | after a digest mismatch an image starts exactly when it is not a UKI and the firmware loads it |
| LayerGraph.LayerSearch.Dfs | tools/check-layers.py:94-102 | the recursion ends; it fails only on a cycle and otherwise leaves graded depths |
| LayerGraph.LayerSearch.Run | tools/check-layers.py:91-105 | the run reports a cycle exactly when the graph has one |
| LayerGraph.PathIsBounded | tools/check-layers.py:94-102 | depths fall along every path, so no path is longer than the depth |
| LayerGraph.LongestPath | tools/check-layers.py:94-102 | a path of that length exists |
| LayerGraph.GradedIsAcyclic | tools/check-layers.py:91-105 | a graph whose modules all have depths has no cycle |

## Left out

- UEFI protocol opens, page allocation, TPM measurements, ShimLock and the jump into an image: only their outcomes are modelled.
- SHA-256: digests are opaque numbers, and equal digests are taken as what the code checks.
- The filesystem and volume crates behind the adapters (ext4, btrfs, xfs, exfat, zfs, iso9660, LVM): only the adapters' own logic is modelled.
- Case folding beyond ASCII in FAT names: `Name` folds ASCII letters only.
- The contents of entry files, TOML policy parsing and path patterns for denial: parsing that would add easy members.
- Range reads of 2^63 bytes or more: no buffer of that size can be allocated.
- Missing parent directories on FAT: a write below one is covered as a write that fails.
- Relocation.RebaseComposes: the condition is exact for two fixups and sufficient for a directory of any length; a longer one can compose without it, because repeated fixups can cancel.
- BootHealth.StoreTellsHistory: boots in which only some writes are refused, or reads fail, have no closed form here; `NoEarlyAlarm` and `NeverCrashLoopState` cover them in a history, `CounterIsCrashesIff` covers failed reads in its last boot.
- LoaderVariables.AnnouncementReadsBackIff: not for paths of exactly 256 characters and more bytes, because there the cut can leave a text that equals the path.
- Blocks that can be read at one time and not at another: which blocks of a device can be read is fixed.
- BootHealth.HealthStore.AssessBootHealth: timestamps and loader information are not modelled.
- BootTrace.Booter.Boot: measurements and flushes of the log are not part of the trace, and reading the kernel comes before it.
- Chainloading, which leaves authenticity to the firmware and has no verification record.
- The layer tool's text scraping and its map rules: host input and tables.
- Menus, consoles, logging, telemetry, ACPI and firmware-configuration probing.
