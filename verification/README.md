# NVRAM store and Bluetooth HCI path

A Dafny model of the two stateful components of this vendor tree, with proofs of what they promise.

**The NVRAM library** (`nvram/libnvram.c`). Record files carry a two-byte trailer, 0xAA and an alternating
add/xor check byte. A version file of 74-byte records says which layout each record file has. Files can be
restored from a bin region on flash: a bad-block bitmap stored three times, a map with titles sorted into
sections, and a data file spread over the good blocks. A history log and a misc log write pages into rings
on the same kind of device. The files are modelled as byte sequences by path and a device as one byte
sequence; reads, writes and seeks are operations on them. `char` is an unsigned byte, as the 0xFF tests of
the code need.

**The Bluetooth HCI path** (`hidl/bluetooth`). A packetizer turns short reads into packets, under the H4
transport (Bluetooth Core Specification, Volume 4, Part A, section 2) and under one with a channel per
packet type. During firmware initialisation one thread sends a script of commands, the watcher thread
completes them through a callback slot and a status word, and a closing thread may end it; their accesses to
shared state are interleaved in every order.

Code that updates state in place is modelled by classes with the same fields (`BackupCounter.Counter`,
`VersionFile.File`, `NvramLib.Nvram`, `Journal.Device`, `MiscLog.Device`, `HciPacketizer.Packetizer`,
`H4Protocol.H4`, `MctProtocol.Mct`, `FirmwareHost.Host`) and loops by loops. Each method is proved against a
function of the old state, and the properties are proved about these functions for all inputs and all runs.

Where a promise turns out not to hold everywhere, the code is modelled as it is and the exact condition is
proved: `CheckTrailer.DetectionIsExact`, `VersionTable.DeleteUndoesAdd`, `VersionFile.ShrinkIsCleanOnlyForOne`,
`NvramStore.ProtectionIsExact`, `Reopening.ReopenKeepsExactly` and `Reopening.RunsAreDurableExactly`,
`Durability.OpenStartsDurability`, `StaleRestore.SealedWriteSurvivesExactly`, `VersionFile.ShrinkStaysInsideExactly`,
`HciFrames.H4RoundTripExactly`, `Journal.KeptIsExact`, `FirmwareInit.SuccessIsCompletionExactly`, with concrete
failing runs in `Reopening.WriteIsLost`, `StaleRestore.SealedWriteIsLostAfterUpdate` and
`FirmwareInit.TerminatedAtStart`.

What comes from outside is a parameter: configuration tables, converters and platform numbers; the image a
restore yields; the bodies of log records; when bytes arrive and how many a read or write takes; whether an
allocation fails.

| files | component |
|---|---|
| `Bytes`, `Pages`, `Alternating` | bytes, files, pages of a device, the alternating fold |
| `CheckTrailer`, `WordCheckSum`, `BackupCounter` | the three checksums and what rests on each |
| `Config`, `VersionTable`, `VersionFile` | tables, version records, the version file |
| `NvramStore`, `NvramLib` | the record files: calls as functions, the library in place |
| `Opening`, `Durability`, `Reopening`, `StaleRestore` | what an open yields, whole runs, opening a file in the middle of writing it, and opening one that is restored in an old version |
| `BinRegion`, `TitleTable`, `BackupFile`, `Recovery` | the bin region, the title table, one file out of the backup, from flash to file |
| `Journal`, `MiscLog`, `Regions` | the logs, and why logging cannot disturb a restore |
| `HciFrames`, `HciPacketizer`, `HciProtocol`, `H4Protocol`, `MctProtocol` | framing, reading, writing, the two transports |
| `FirmwareInit`, `FirmwareHost` | the init protocol over its steps, and its globals in place |

`dafny verify dfyconfig.toml` checks everything.

## Model

| member | source | states |
|---|---|---|
| `CheckTrailer.ComputeCheckNo` | nvram/libnvram.c:3230-3278 | The check byte of a file is the alternating fold of its content bytes, with the loop count the code uses: all bytes of a file without trailer, all but two (modulo 2^32) of one with it; a file that cannot be read that far fails |
| `CheckTrailer.CheckNoGrows` | nvram/libnvram.c:3240-3278 | The check byte byte by byte: nothing sums to 0, odd bytes are added modulo 256, even ones xored |
| `CheckTrailer.TrailerIs` | nvram/libnvram.c:3359-3405 | What is written behind a new file is 0xAA and its check byte |
| `CheckTrailer.CheckFileContent` | nvram/libnvram.c:3426-3480 | The check succeeds exactly on files that end in 0xAA and the fold of what precedes |
| `CheckTrailer.SetCheckNoMakesValid` | nvram/libnvram.c:3359-3405 | Setting a trailer, on a new file or over an old one, makes the check succeed and keeps every content byte |
| `CheckTrailer.OneByteChangeIsDetected` | nvram/libnvram.c:3230-3278 | Changing any one byte of a valid file, content, flag or check byte, makes the check fail |
| `CheckTrailer.DetectionIsExact` | nvram/libnvram.c:3426-3480 | Every one-byte change of a valid file is detected if and only if the content is shorter than 2^32 bytes, where the loop counter wraps |
| `Alternating.FoldDetectsOneChange` | nvram/libnvram.c:3240-3278 | Why: every add and xor step is a bijection, so one changed element changes the whole fold, for 8 and 32 bits |
| `Alternating.XorBit` | nvram/libnvram.c:3240-3278 | The exclusive or used in all three checksums, bit by bit |
| `WordCheckSum.ComputeCheckSum` | nvram/libnvram.c:1660-1721 | The version in use, 4096 words a read with the phase carried over and the tail added, computes the checksum for every file length |
| `WordCheckSum.ComputeCheckSumByWord` | nvram/libnvram.c:1741-1777 | The word-at-a-time version computes the same checksum |
| `WordCheckSum.FoldNextRead` | nvram/libnvram.c:1676-1704 | Folding a further read continues the fold of the words before it with the phase their number leaves |
| `WordCheckSum.CheckSumDetectsOneByteChange` | nvram/libnvram.c:1660-1721 | Any change of one summed byte, in a whole word or in the tail, changes the checksum |
| `WordCheckSum.SumOfOneMoreWord` | nvram/libnvram.c:1676-1704 | The checksum word by word: nothing sums to 0, odd words are xored, even ones added modulo 2^32, low byte first |
| `WordCheckSum.SumOfTail` | nvram/libnvram.c:1705-1721 | The one to three bytes left over are added, low byte first, whatever the phase |
| `WordCheckSum.SumWraps` | nvram/libnvram.c:1660-1676 | The size is cut to 32 bits: of a file of 2^32 bytes or more only what is over is summed |
| `BackupCounter.Counter.CheckBackFlag` | nvram/libnvram.c:413-457 | True exactly for a flag file of five bytes whose last is the fold of the first four |
| `BackupCounter.Counter.AddBackupNum` | nvram/libnvram.c:748-826 | The file after an addition holds the saved or fallen-back count plus the increment, with its check byte; nothing else changes; an increment of zero is refused |
| `BackupCounter.ValidFilesAreEncodings` | nvram/libnvram.c:413-457 | The valid flag files are exactly the encodings of counts, so decoding and encoding are inverse |
| `BackupCounter.CorruptionIsDetected` | nvram/libnvram.c:413-457 | A valid flag file with one byte changed is not valid, and the count taken from it is the bin region's, or zero when that cannot be read or was never set |
| `BackupCounter.CheckByteOf` | nvram/libnvram.c:413-457 | The check byte of four bytes: first and third xored in, second and fourth added |
| `BackupCounter.FirstAddition` | nvram/libnvram.c:748-826 | Without a flag file the first addition leaves a file that holds the increment itself, low byte first |
| `BackupCounter.RunsKeepTheCount` | nvram/libnvram.c:748-826 | After every run of additions, with any of the five bytes changed before any of them, the file is valid and holds the count that a history of increments, changes and bin-region counts alone predicts |
| `BackupCounter.UncorruptedRunAddsUp` | nvram/libnvram.c:748-826 | Without corruption that count is the starting count plus the sum of the increments modulo 2^32 |
| `Config.BaseNameFollowsLastSlash` | nvram/libnvram.c:1249-1256 | The base name the loop finds is what follows the last slash, and there is none only in a path without slash |
| `VersionFile.File.UpdateFileVerNo` | nvram/libnvram.c:1209-1635 | The three updates of the version file, in place: update rewrites the first record of the name or switches to adding, adding inserts or appends, deleting closes the gap; an unusable call changes nothing |
| `VersionFile.File.FindName` | nvram/libnvram.c:1262-1285 | The scan stops at the first record of the name, or at the number of records |
| `VersionFile.File.CmpFileVerNo` | nvram/libnvram.c:3830-3980 | The version check reads the lid's own slot and, when another name is there, searches; a missing version file is generated first |
| `VersionTable.RecordsOfPut` | nvram/libnvram.c:1442-1626 | A record added inside the table is inserted there, every other record unchanged and aligned |
| `VersionTable.RecordsOfPutPast` | nvram/libnvram.c:1442-1480 | A record added past the end follows a gap of zero bytes that reads as records without a name |
| `VersionTable.RecordsOfDeleted` | nvram/libnvram.c:1350-1431 | A deletion removes exactly the record of the lid's slot and keeps alignment |
| `VersionTable.DeleteUndoesAdd` | nvram/libnvram.c:1350-1626 | Deleting a lid straight after adding it restores the file byte for byte, if and only if the addition was an insertion or an append exactly at the end |
| `VersionTable.LookupFindsUnique` | nvram/libnvram.c:3890-3970 | With unique names, a record anywhere in the table is the one its name is looked up to |
| `VersionTable.VersionFromIsLookup` | nvram/libnvram.c:3890-3970 | The slot-first search of the version check yields the version its name has in the table, wherever its record has been shifted |
| `VersionTable.OwnSlotDecides` | nvram/libnvram.c:3890-3920 | A record in the lid's own slot decides its version check, whatever else the table holds |
| `VersionTable.UpdateMakesCurrent` | nvram/libnvram.c:1209-1348 | An update of a named lid, including its switch to adding, makes the lid's version check true, keeps the table well formed and changes the version of no other name |
| `VersionTable.UpdateKeepsOthers` | nvram/libnvram.c:1209-1348 | The outcome of every other name's version check is the same before and after an update |
| `VersionFile.File.GenerateFileVer` | nvram/libnvram.c:1071-1153 | Generation writes the header record and one record per lid over the start of the file |
| `VersionFile.GeneratedIsCurrent` | nvram/libnvram.c:1071-1153 | A generated version file is well formed and current for every named lid |
| `VersionFile.File.CheckFileNum` | nvram/libnvram.c:4245-4301 | On any version file the four loops leave what adding at rising slots, and then deleting at rising slots, makes of it; on a table with a record for each old lid they leave those insertions and deletions of records, and when both counts only grow every lid's record is in its slot; without a version file the call fails unless nothing is to be done |
| `VersionFile.ShrinkStaysInsideExactly` | nvram/libnvram.c:4279-4296 | The deletions of a table of the old lids stay inside it if and only if at most one count shrinks and that one not by too many; when both shrink they run past its end |
| `VersionFile.GrownTableIsInOrder` | nvram/libnvram.c:4245-4278 | When both counts only grow, record k+1 is named for lid k for every lid, old records are kept and new ones carry the configured versions |
| `VersionFile.ShrinkIsCleanOnlyForOne` | nvram/libnvram.c:4279-4296 | The shrinking loops, which delete at rising indices, remove the intended run of n records if and only if n is at most one |
| `NvramLib.Nvram.CheckFileSize` | nvram/libnvram.c:3297-3340 | The size check: 0 without trailer, 1 with it, -1 for any other size or no file |
| `NvramLib.Nvram.ResetFileToDefault` | nvram/libnvram.c:3626-3809 | A reset writes the default of the entry's type, updates the version and sets the trailer, in place, as the store function says |
| `NvramLib.Nvram.RestoreOneFile` | nvram/libnvram.c:2612-2725 | A restore writes the image unless its size is wrong, and succeeds exactly when the written file passes both checks |
| `NvramLib.Nvram.ProtectDataFile` | nvram/libnvram.c:3502-3605 | Protection sets, checks, restores or resets by the branches of the code; returning 1 it leaves a protected file, of an entry not both backed up and ambiguous, and a right-sized file that it sets or finds valid keeps its content |
| `NvramLib.Nvram.DataVerConvert` | nvram/libnvram.c:3999-4244 | A conversion writes the converted content, updates the version and protects the file; a lid past the version file's end is reset |
| `NvramLib.Nvram.GetFileDesc` | nvram/libnvram.c:4708-4860 | An open succeeds exactly when there is an expected content, as the file was, from the backup, from the converter or the default, and that is what users see; with a descriptor the file is protected unless an image without trailer was restored, and current unless a missing file of a stale version was restored |
| `NvramLib.Nvram.CloseFileDesc` | nvram/libnvram.c:4946-5012 | Closing a file of a right size opened for writing succeeds, protects it and keeps what its users see of it; other closes change nothing |
| `NvramStore.ResetProtects` | nvram/libnvram.c:3626-3809 | A reset succeeds exactly when the entry has a usable default, and then the file is that default, protected |
| `NvramStore.DefaultOfMultiple` | nvram/libnvram.c:3700-3760 | The default of multiple records is the value of the table once for each record; there is none without a value or for fewer than two records |
| `NvramStore.ProtectProtects` | nvram/libnvram.c:3502-3605 | Whenever protection returns 1, by any path, the size check yields 1 and the trailer check holds |
| `NvramStore.ProtectKeepsContent` | nvram/libnvram.c:3502-3605 | A file of the right size keeps all its content bytes, by setting whatever its trailer, by checking when it is valid or has none yet |
| `NvramStore.ProtectionIsExact` | nvram/libnvram.c:3502-3605 | The promise of protection holds for all stores and images if and only if the entry is not both backed up and ambiguous in size |
| `NvramStore.AmbiguousEntries` | nvram/libnvram.c:3297-3340 | The ambiguous entries are exactly those with multiple default records, two records of one byte |
| `Reopening.RunsAreDurableExactly` | nvram/libnvram.c:4708-5012 | Along a run of opens, writes and closes of any files, reopening in the middle of writing included, the file of an ordinary lid has the size, version, trailer and content that a trailer-free view of it predicts, if and only if every reopening between a write and its close is one the write survives |
| `Durability.OpenAfterRun` | nvram/libnvram.c:4708-4860 | After such a run an open succeeds, changes nothing and exposes exactly that content, with valid size and trailer |
| `Opening.OpenYieldsExactly` | nvram/libnvram.c:4708-4860 | Every open from a store with a usable version file: a current file keeps its content if it is of use, an outdated one has what its converter made of it, a missing or unusable one its backup or default, and the open fails exactly when there is none of these |
| `Opening.ConvertGives` | nvram/libnvram.c:3999-4244 | A conversion leaves the converted content under a trailer; a failing converter leads to the default, a content of no right size to backup or default |
| `Opening.PerformanceYields` | nvram/libnvram.c:4719-4724 | A file listed for performance is opened without check or trailer, as it was, restored, converted or reset, and closing it changes nothing |
| `Durability.OpenStartsDurability` | nvram/libnvram.c:4708-4860 | A successful open leaves a protected file if and only if it did not restore an image that has the size of a file without trailer, and starts a durable run if and only if, besides, it did not restore a missing file of a stale version; both conditions are on the store and the backup before the call |
| `StaleRestore.SealedWriteSurvivesExactly` | nvram/libnvram.c:4785-4853 | Open, write, close, open again, for an entry that resets on a version mismatch: every close seals the byte, and the next open still has it if and only if the first open did not restore a missing file of a stale version, or what was sealed is the default |
| `StaleRestore.SealedWriteIsLost` | nvram/libnvram.c:4785-4853 | After such a restore a write over the image is sealed under a valid trailer by a successful close, and the next open replaces it by the default |
| `StaleRestore.SealedWriteIsLostAfterUpdate` | nvram/libnvram.c:4785-4853 | The same on a concrete store whose version file is of an earlier configuration: open, write 1, close, open again, and the content is 0 |
| `StaleRestore.OpenProtectionIsExact` | nvram/libnvram.c:4844-4853 | Every successful open of a lid leaves its file protected, for all stores with a usable version file and all images, if and only if the entry is not both backed up and ambiguous in size |
| `Durability.CloseSealsContent` | nvram/libnvram.c:4946-5012 | A close after writing succeeds and seals exactly the bytes written |
| `Reopening.OpenWhileDirtyRecovers` | nvram/libnvram.c:4845-4853 | An open between a write and its close yields the content written if the stale trailer fits it, otherwise the backup's image or the default, and no descriptor if there is neither |
| `Reopening.ReopenKeepsExactly` | nvram/libnvram.c:4845-4853 | The write survives such an open if and only if the stale trailer fits or the very content written is recovered, and then it is sealed |
| `Reopening.ReopenIsSafeExactly` | nvram/libnvram.c:3502-3605 | It survives whatever the backup holds if and only if the stale trailer fits, or the content is the default and no backup can replace it |
| `Reopening.OneByteWriteIsLost` | nvram/libnvram.c:4708-4860 | Every one-byte write to a file at its default and not backed up is lost when the file is opened again before its close: all calls succeed and the default is back |
| `Reopening.WriteIsLost` | nvram/libnvram.c:4708-4860 | The same on a concrete store with one record file: open, write 1, open again, and the content is 0 |
| `Durability.StepTouches` | nvram/libnvram.c:4708-5012 | An operation on one lid changes no other file and the version check of no other name |
| `BinRegion.ScanForBitmap` | nvram/libnvram.c:2905-2990 | The downward scan finds the topmost block, below the reserve, that carries the bitmap three times and the flag |
| `BinRegion.FindBitmapIsTopmost` | nvram/libnvram.c:2905-2990 | Found at k means: the candidate of k carries the bitmap and no candidate above it does |
| `BinRegion.CarriesExactly` | nvram/libnvram.c:2940-2980 | The blocks that carry a bitmap are three copies of it and the bytes DD CC BB AA, with anything behind |
| `BinRegion.DamagedBitmapIsRefused` | nvram/libnvram.c:2940-2980 | One damaged byte in any copy or in the flag, and the block is refused |
| `BinRegion.ReserveIsBySize` | nvram/libnvram.c:2885-2905 | Below the 32-bit wrap, a second block is kept for the map exactly when map and header are longer than the whole write units of one |
| `BinRegion.ReserveWraps` | nvram/libnvram.c:2886-2897 | The rounded size is cut to 32 bits: a map size just below 2^32 is taken for one that fits a block |
| `BinRegion.ReadDataFile` | nvram/libnvram.c:3103-3200 | The data file is the first iDatFileSize bytes of the good blocks behind the map, taken in order, or nothing when they are too few or none is left; behind a two-block map that ends past the limit an empty file is still read; the later out-of-blocks branch is dead code |
| `BinRegion.EnoughBlocks` | nvram/libnvram.c:3103-3130 | The free-capacity check passes exactly when the good blocks are as many as the data file takes, and that many hold the same first bytes as all of them |
| `BinRegion.RestoreFiles` | nvram/libnvram.c:2816-3211 | The whole reader, scan, map, gathering, computes the specified map and data file |
| `BinRegion.FindsTheLayout` | nvram/libnvram.c:2905-3000 | In a region laid out with the bitmap in one block and nothing like it above, the map in the first good block, and one block more for a map that with its header is longer than a block, the reader finds that bitmap and that map |
| `BinRegion.ReadsWhatWasLaidOut` | nvram/libnvram.c:2816-3211 | From a region laid out block by block, bitmap, header and map, data in good blocks behind, the reader yields exactly the map and the data |
| `BinRegion.RestoredDependsOnRegion` | nvram/libnvram.c:2862-2874 | The result depends on nothing outside the reader's own blocks |
| `BinRegion.RegionFits` | nvram/libnvram.c:2862-2874 | The blocks the platform numbers leave to the reader lie within the device |
| `TitleTable.SectionsAreContiguous` | nvram/libnvram.c:2034-2590 | For all five header layouts, the sum the code writes out for a category is the number of titles in the header fields before its own |
| `TitleTable.SectionsCover` | nvram/libfile_op.h:154-284 | The sections one after the other are one list of titles, read from the start of the table without gap or overlap |
| `TitleTable.SectionIsAtItsPosition` | nvram/libnvram.c:2034-2590 | What the search of an active category reads is the section at its position |
| `TitleTable.TitlesFollowHeader` | nvram/libnvram.c:1971-1995 | The titles start behind twelve bytes, the counts filled up to whole ints, and two ints, for all five layouts |
| `TitleTable.TitleReadsBack` | nvram/libfile_op.h:146-151 | A title written as three ints and a zero-filled name is read back |
| `TitleTable.SectionIsAsWritten` | nvram/libnvram.c:2034-2590 | In a table written section by section, what the search of an active category reads is the section written at its field, title by title |
| `TitleTable.FileMask` | nvram/libnvram.c:2748-2775 | The mask of the categories left out, built by the features |
| `TitleTable.SearchFindsStored` | nvram/libnvram.c:2802-2810 | In a written table the search over all categories finds the first file stored under a path |
| `TitleTable.SearchCategories` | nvram/libnvram.c:2802-2810 | The loop over categories finds the first title of that name in one linear search of the unmasked sections, in table order |
| `TitleTable.SearchTitles` | nvram/libnvram.c:2607-2631 | The title loop of one category is a linear search of its section; a count out of range reads nothing |
| `BackupFile.CheckDataOneFile` | nvram/libnvram.c:2736-2814 | A file comes out of the backup only when the checksum of the data, mixed with its size, matches; it is the slice its first unmasked title points at |
| `BackupFile.StoredIsCut` | nvram/libnvram.c:2640-2672 | What is cut out for a title is exactly the bytes from its start on, as many as its size, and nothing when these are not all there or the numbers are out of range |
| `BackupFile.CorruptDataIsRefused` | nvram/libnvram.c:2789-2799 | A data file with one byte changed is never restored from |
| `BackupFile.LongDataIsCheckedAsShort` | nvram/libnvram.c:2782-2799 | Size and sum are cut to 32 bits: data of 2^32 bytes or more is checked like what is over alone |
| `BackupFile.ImageIsFirstUnmasked` | nvram/libnvram.c:2802-2810 | An image handed to a restore is the slice that the first title of that path points at, in one linear search of the unmasked sections |
| `Recovery.StoredFileIsFound` | nvram/libnvram.c:2816-3211 | A region as its writer leaves it, block layout, checksum and table of titles, yields for a path the bytes of the data file from the start and of the size that were written for the first file stored under it |
| `Recovery.CorruptFileComesBack` | nvram/libnvram.c:3502-3605 | End to end, protecting a corrupt file that is backed up leaves exactly the bytes stored for it, and changes nothing else of the store |
| `Recovery.LoggingKeepsImage` | nvram/libnvram.c:5451-5584 | No run of log calls to the device changes what the bin region holds for any path |
| `Journal.Device.HistoryLog` | nvram/libnvram.c:5451-5584 | A log call below the level or on an unusable device changes nothing; otherwise the device is erased and written as specified, in place |
| `Journal.Device.GetSequenceNum` | nvram/libnvram.c:5014-5100 | The number in the super page, or zero without the magic |
| `Journal.Device.IncSequenceNum` | nvram/libnvram.c:5102-5204 | The super page is rewritten with the next number, on NAND after its block is erased |
| `Journal.SequenceCounts` | nvram/libnvram.c:5102-5204 | Below the wrap, the sequence number counts the log calls of every run |
| `Journal.FreshDevice` | nvram/libnvram.c:5014-5100 | On a device whose super page does not start with the bytes 7b 7b 5a 5a, counting and the ring start at zero |
| `Journal.LoggedPages` | nvram/libnvram.c:5505-5565 | A log call writes its record's page, blanks the rest of a block it has erased, and keeps every other page |
| `Journal.Retention` | nvram/libnvram.c:5497-5581 | After every run below the wrap, the record of each call is at its slot if and only if it survives: the whole ring without erasing, until the ring comes back to its block on NAND |
| `Journal.NewestAreKept` | nvram/libnvram.c:5497-5581 | The newest pages*(blocks-1) records without erasing, on NAND the newest pages*(blocks-2)+1, or all if fewer were written, are at their slots |
| `Journal.KeptIsExact` | nvram/libnvram.c:5505-5521 | Those numbers are the best possible: after every run, without erasing always and on NAND whenever a block has just been started, the records at their slots are exactly that many newest ones |
| `Journal.BlockOnDevice` | nvram/libnvram.c:5511-5521 | Every erase of a log block starts at a block boundary and ends before the super page's block |
| `Journal.RunWritesBlankPages` | nvram/libnvram.c:5511-5521 | On NAND every record of a run goes to a page that has been erased since it was last written |
| `MiscLog.Device.MiscLog` | nvram/libnvram.c:5769-5895 | The misc log is refused on NAND, in layout 1 and on small pages; otherwise the record and the number are written in place |
| `MiscLog.RecordSparesSequencePage` | nvram/libnvram.c:5826-5831 | A record is never written over the page of the sequence number |
| `MiscLog.Retention` | nvram/libnvram.c:5826-5880 | After every run below the wrap, a record is at its slot if and only if it is among the newest block-full |
| `MiscLog.FreshDevice` | nvram/libnvram.c:5826-5880 | On a device without the magic the misc log starts at number zero, behind the page of the number |
| `MiscLog.LeavesItsBlock` | nvram/libnvram.c:5826-5831 | The log stays in its block except for one number in every block-full, whose page is the first of the next block |
| `Regions.RecordStaysInLog` | nvram/libnvram.c:5505-5521 | Writing a record, with its erase, touches neither the super page's block nor anything before the log |
| `Regions.ReaderEndsBeforeLog` | nvram/libnvram.c:2862-2874 | In layout 0 the reader's blocks end before the log's first block |
| `Regions.LoggingKeepsRestore` | nvram/libnvram.c:5451-5584 | A restore from the bin region yields the same files, or the same failure, after any run of log calls |
| `HciFrames.H4Accounts` | hidl/bluetooth/h4_protocol.cc:68-94 | The reference parse of an H4 stream: its frames, each well formed, and its remainder put together are the stream |
| `HciFrames.H4Append` | hidl/bluetooth/hci_packetizer.cc:53-100 | What has been parsed stays parsed when more of the stream arrives |
| `HciFrames.PacketIsWhole` | hidl/bluetooth/hci_packetizer.cc:24-41 | Commands, ACL and SCO data and events laid out by their tables, header fields, length (two bytes low first for ACL data) and payload, are recognised as whole packets |
| `HciFrames.WellFormedExactly` | hidl/bluetooth/hci_packetizer.cc:24-41 | The well-formed packets of a type are exactly the bytes of such packets |
| `HciFrames.WireRoundTrip` | hidl/bluetooth/h4_protocol.cc:32-94 | Such packets, each behind its type byte 2, 3 or 4, are parsed back under their types |
| `HciFrames.H4RoundTrip` | hidl/bluetooth/h4_protocol.cc:32-94 | Well-formed, non-empty frames written one after the other are parsed back to the same frames |
| `HciFrames.H4RoundTripExactly` | hidl/bluetooth/hci_packetizer.cc:73-98 | Whole frames of received types, those without payload included, are parsed back if and only if each has a payload |
| `HciFrames.ChannelRoundTrip` | hidl/bluetooth/mct_protocol.cc:42-65 | The same for the packets of a channel without type bytes |
| `HciFrames.ChannelRoundTripExactly` | hidl/bluetooth/hci_packetizer.cc:73-98 | The same condition for the packets of a channel |
| `HciPacketizer.Packetizer.OnDataReady` | hidl/bluetooth/hci_packetizer.cc:53-100 | One read of any size extends the packet being assembled, announces it exactly when it is whole, and aborts only at the end of the stream or behind a header that announces nothing |
| `H4Protocol.H4.OnDataReady` | hidl/bluetooth/h4_protocol.cc:68-94 | After any read, what has been delivered and what is held back are the reference parse of the bytes read; an abort is one of the reference |
| `H4Protocol.H4.OnPacketReady` | hidl/bluetooth/h4_protocol.cc:49-66 | The packet goes to the one of the three sinks that its type names, a type is expected next, and a type without a sink aborts |
| `H4Protocol.H4.Serve` | hidl/bluetooth/h4_protocol.cc:68-94 | For any arrival of a stream and any split into short reads, each sink gets the packets of its type that one parse of the whole stream has, in order, and an abort is one of that parse |
| `H4Protocol.H4.Send` | hidl/bluetooth/h4_protocol.cc:32-47 | The wire gains a prefix of type and packet of the length returned, through any retries; while all writes are full it carries exactly the frames sent |
| `H4Protocol.Exchange` | hidl/bluetooth/h4_protocol.cc:32-94 | Frames sent by one end and received by the other, in any chunks and short reads: unless a write fell short, each sink has exactly the packets of its type that were sent, in order |
| `H4Protocol.FatalStays` | hidl/bluetooth/h4_protocol.cc:85-90 | What has been delivered before an abort does not depend on what arrives afterwards |
| `HciProtocol.WriteSafely` | hidl/bluetooth/hci_protocol.cc:31-53 | Under any pattern of short writes and retries the bytes transmitted are a prefix of the data, and all of it unless the descriptor fails or takes nothing |
| `MctProtocol.Mct.Send` | hidl/bluetooth/mct_protocol.cc:42-49 | A command and ACL data go to their own channels, byte for byte; any other type aborts and writes nothing |
| `MctProtocol.Mct.OnAclDataReady` | hidl/bluetooth/mct_protocol.cc:63-65 | A read of the ACL channel keeps what has been delivered from both channels a function of the bytes read |
| `MctProtocol.Mct.OnEventDataReady` | hidl/bluetooth/mct_protocol.cc:59-61 | A read of the event channel keeps what has been delivered from both channels a function of the bytes read |
| `MctProtocol.Mct.Serve` | hidl/bluetooth/mct_protocol.cc:51-65 | For any interleaving of the two channels and any split into reads, each delivers the packets of its own reference parse |
| `MctProtocol.Exchange` | hidl/bluetooth/mct_protocol.cc:42-65 | ACL packets sent through WriteSafely and received by the other end, under any short writes, retries and short reads: unless a write gave up, the packets received are those sent |
| `FirmwareHost.Host.Schedule` | hidl/bluetooth/radiomod.c:182-277 | The globals updated in place under any schedule of the three threads: the commands sent are the script's in order, each but the last completed by its own event, the first as the configured address asks; each event in one sink, none taken but answers; a waiting thread owed its reply under its own opcode; a report at the end, success without termination for the whole script and failure not; a returned Close has ended the thread |
| `FirmwareInit.RunKeepsInv` | hidl/bluetooth/radiomod.c:182-277 | The invariant of the three threads, mutex, callback, script position and completions, holds after every interleaving |
| `FirmwareInit.AtMostOneOutstanding` | hidl/bluetooth/radiomod.c:218-264 | On every interleaving the commands sent are the script's, in order and without gap, and each but the last has been completed by a Command Complete event of its own opcode with status 0 |
| `FirmwareInit.FirstCommand` | hidl/bluetooth/radiomod.c:203-216 | With no callback left over, the first command of every run reads the eFUSE address if and only if that is wished for or the configured address is all zero or the default; otherwise it sets the configured address |
| `FirmwareInit.WishIsForgotten` | hidl/bluetooth/radiomod.c:427-430 | The wish to read the eFUSE is kept until the address command is built and does not outlive it |
| `FirmwareInit.SuccessMeansCompleted` | hidl/bluetooth/radiomod.c:218-273 | From a status other than terminate, a success report while the status is not terminate means that the whole script was sent and every command completed |
| `FirmwareInit.ReportIsExact` | hidl/bluetooth/radiomod.c:218-273 | The thread ends with a report; a failure means that some command was not completed, and without termination success is reported exactly when all were |
| `FirmwareInit.FailureIsTheEvents` | hidl/bluetooth/radiomod.c:253-257 | While allocations succeed, a reported failure is due to an event that did not complete its command |
| `FirmwareInit.AllocationFailureIsFinal` | hidl/bluetooth/radiomod.c:242-245 | A failed allocation is reported as a failure, whatever follows |
| `FirmwareInit.ScriptCanComplete` | hidl/bluetooth/radiomod.c:218-266 | From every start but a left-over terminate, some run completes the whole script and reports success |
| `FirmwareInit.SuccessIsCompletionExactly` | hidl/bluetooth/radiomod.c:218-266 | Without Close, success means completion on all runs if and only if the status left by an earlier init is not terminate |
| `FirmwareInit.TerminatedAtStart` | hidl/bluetooth/radiomod.c:218-266 | With a terminate status left over, success is reported with nothing sent |
| `FirmwareInit.NextInitIsInitial` | hidl/bluetooth/radiomod.c:279-333 | Whatever an init and its Close leave in the statics is again a start from which the safety results hold: a callback is left over only together with a terminate status |
| `FirmwareInit.ClosedIsDone` | hidl/bluetooth/radiomod.c:317-334 | Close returns only when the init thread has ended |
| `FirmwareInit.EachEventToOneSink` | hidl/bluetooth/vendor_interface.cc:293-305 | On every interleaving the events that arrived are, each exactly once, those given to a callback, those given to the stack, and the one in flight |
| `FirmwareInit.OnlyAnswersAreTaken` | hidl/bluetooth/vendor_interface.cc:63-77 | On every interleaving the callbacks are given nothing but Command Complete events for opcodes of the script or the one left registered |
| `FirmwareInit.EventByItsBytes` | hidl/bluetooth/radiomod.c:644-656 | A Command Complete event by its bytes: opcode low byte first, status, and the six address bytes behind it |
| `FirmwareInit.NoLostWakeup` | hidl/bluetooth/radiomod.c:247-251 | Whenever the init thread waits, the status is pending, the opcode registered is that of its command, and that command's callback is registered or the watcher is completing it |
| `FirmwareInit.ReplyWakesTheThread` | hidl/bluetooth/radiomod.c:636-671 | Under every interleaving, once a Command Complete event for the command sent reaches an idle watcher, then by the watcher's sixth unblocked step the callback has taken the event, the status is set by the event's own status byte and the thread is awake |
| `FirmwareInit.BlockedForOneStep` | hidl/bluetooth/radiomod.c:664-668 | While it completes a command the watcher can be blocked only by the init thread, whose next step lets it go on |
| `FirmwareInit.TerminateEndsThread` | hidl/bluetooth/radiomod.c:173-180 | Once Close has told it, the init thread is through after at most eight steps of its own, whatever the others do |
| `FirmwareInit.CloseEndsThread` | hidl/bluetooth/radiomod.c:317-334 | From every start, once Close has notified it, eight steps of the init thread end it, whatever the others do |
| `FirmwareInit.CloseReturns` | hidl/bluetooth/radiomod.c:317-334 | Under every interleaving Close returns after at most four steps in which no event in progress, held mutex or running thread blocks it |
| `FirmwareInit.TerminateStays` | hidl/bluetooth/radiomod.c:227-234 | Once the watcher is stopped, no step of any thread undoes a termination |
| `FirmwareInit.AddressGoesBackOut` | hidl/bluetooth/radiomod.c:379-443 | When the script starts with the eFUSE read, the address command puts exactly the six bytes of the accepted reply on the wire |

## Left out

- The old version file of 4-byte records: its update and append paths use the offset of the new format.
- Special lids kept in a partition, and restores keyed by a file name instead of a lid.
- Title headers read at an offset other than zero.
- Failing system calls, directories, ownership and modes, log texts; the IMEI and barcode bytes are part of a log record's body.
- Concurrent callers of `NVM_UpdateFileVerNo`, which drops its lock between reading and rewriting.
- Converters, configuration tables, `NVM_GetBackupFileNum` and the writer of the bin region: parameters, or for the writer a predicate on its layout.
- A log sequence number that wraps at 2^32: the steps wrap as the code does, the statements about runs stay below it.
- Confinement of the misc log to its block, which does not hold; `MiscLog.LeavesItsBlock` says when it is left.
- Sizes of 2^31 and more, where `int` products of table entries and file sizes overflow; the trailer's and the checksum's loop counters are modelled with their wrap.
- A map in the bin region whose size field exceeds what was read, or a title table larger than its file: the reader then runs past its buffers, which `MapFits` and `TitlesFit` exclude.
- VersionFile.File.CheckFileNum: excludes deletions past the end of the file (`DeletesInside`), where the number of bytes to copy would be negative; `VersionFile.ShrinkStaysInsideExactly` says when that is.
- The super page of the history log between its erase and its rewrite: a power loss there restarts the numbering.
- FirmwareInit.SuccessMeansCompleted: starts from a status other than terminate, because `cmd_status` is not reset between inits and `FirmwareInit.TerminatedAtStart` shows the success that a left-over terminate reports.
- Devices whose erase block is not a whole number of pages, a log of a single block (the code would divide by zero), and a misc log in the device's last block (its last page would lie past the end).
- FirmwareInit.FirstCommand: starts with no callback left over; one left by a terminated init can take a late reply and change the address before the script starts.
- Negative lids: a lid is a natural number.
- The mutex and condition variable are taken as initialised for as long as any thread uses them; the window in which the init thread has destroyed them while Close still notifies is not modelled, nor is a send through the transport after Close has deleted it.
- Weak memory order: each access to a shared variable is one step.
- A byte of an event past its end, which the address callback would read, is taken as zero.
- The low-power wake timer, the watcher's select loop and thread plumbing, reentrant packet callbacks, and the other HAL services of the tree.
