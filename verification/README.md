# Storage stack, transfer, line and log: a verified model

Dafny models of the firmware's stateful cores, and proofs of what they keep. `dafny verify
dfyconfig.toml` checks everything.

## What is modelled

**SPI NOR driver** (`drivers/spiflash.c`). `SpiNor` gives a chip a meaning, command frame by
command frame: programming ANDs bits, a page program wraps inside 256 bytes, auto-increment
counts by two. The driver's loops run against it in class `SpiFlash`. Both program loops are
shown to have one meaning, on one flat memory laid over all chips.

**Write-back cache** (`mtd/flash.c`). One sector buffer serves the internal flash and the SPI
flash. `FlashCache` says what each call makes of a state and proves that callers see two plain
byte arrays. `FlashBuffer` runs the same calls on the buffer array, on `SpiFlash` and on the
index record, and records every command sent; `FlashCommands` says which those are, call by
call. `FlashJournal` cuts the commands of a write-back anywhere, and `FlashCrash` those of a
whole run: `PowerFailsInRun` says what that costs a caller. The steps compose:
`SpiFlash.Program` under `Buffer.StoreSpi` under `Buffer.WriteBackSpi` under `Buffer.SpiWrite`.

**Paths, mounts, descriptors** (`fs/dfs.c`, `fs/dfs_fs.c`, `fs/dfs_file.c`,
`fs/dfs_posix.c`). `Paths` is the meaning of a path as components on a stack; `PathRewrite` is
the in-place two-pointer loop on a char array, proved to compute it for every input. `Mounts`
and `Descriptors` are the two tables, their runs, and the busy check of unlink.

**Firmware transfer** (`cp/gdfts.c`). `Transfer` turns each message into the flash and store
operations it performs, lets power fail between any two and operations fail part-way, and proves
the boot header safe over all runs. `TransferResume` proves that what was received survives.

**Software UART** (`drivers/swuart.c`). `SoftUart` joins the transmit machine of one port to the
receive machine of another, cell by cell, and gives the receiver any line of well-formed frames,
back to back or with pauses.

**Ring log, buffer, BCD** (`dbg/log.c`, `lib/buffer.c`, `lib/bcd.c`). `RingLog` refines an
unbounded log, also with writes cut by power loss; `GrowBuffer` a byte sequence; `Bcd` decimal
digits. `Bytes`, `LittleEndian` and `Multiples` hold what several modules share.

In each module a pure function says what a call does (`Flush`, `OpenSpec`, `Ops`, `Tick`), the
class method is proved to compute it statement by statement, and the lemmas prove what it means.

## Where the code does not do what it is for

The model follows the code. The lemmas named here give an input that shows it, or say exactly
when the code is right, or both.

- `flash_Init` tests its index record with `< 0` (`mtd/flash.c:263`), which elsewhere means
  "absent" (`dbg/log.c:91`): it replays the shadow when there is no record and skips when there
  is one. `Buffer.Init` and `BootAsWritten` are the code as written. `ReplaySteps`, and with it
  `HistoryIsAtomic`, take the recovery the record is meant for.
- The store writes a record's header before its data (`fs/sfs/sfs.c:263-272`), so power failing
  in between leaves an index record that names a wrong sector, and a transfer record that says a
  wrong place: `FlushIsCrashSafe`, `UnnamedRecordStrikes`, `NameCut`, `TornStore`. `log_Write`'s index is
  replaced the same way, and so is the read cursor: `IndexCutLosesLog`, `CursorCut`.
- `spif_SecWrite` steps past the word it stops at before comparing with the end
  (`mtd/flash.c:377-383`), so data whose only non-blank word is the last is treated as blank:
  `SecWriteView`, `LastWordIsLost`.
- `dirty` is both a time and a flag (`mtd/flash.c:179`), so a write at clock zero is dropped:
  `WriteSurvivesEviction`.
- A `..` at the root loses the leading slash, and a path reduced to nothing is read at index -1
  (`fs/dfs.c:358-372`): `NormalizeExact`, `ClimbingGoesRelative`, `ClimbingUnderruns`.
- The sector map takes every chip to have 1024 sectors (`drivers/spiflash.c:322`), while probing
  accepts 512 and 2048: `SizeIsAddressable`, `SmallChipFirst`.
- `dfs_mount` looks for the path as given among normalised ones (`fs/dfs_fs.c:273`):
  `MountKeepsDistinct`, `DuplicateMount`. `dfs_unmount` of a path inside a mount clears that
  mount, and follows a null pointer when there is none: `UnmountIsExact`, `UnmountOfNothing`.
- `dfs_file_close` clears the slot before the two `fd_put` calls, so a closed slot ends at -2
  (`CloseKeepsInv`); `fd_get` lets `DFS_FD_MAX` itself through (`CloseBreaksExactly`); `fd_is_open`
  compares paths that full-path drivers and mount points do not store, and does not scan the
  slots above `DFS_FD_MAX` (`DescriptorIsSeen`, `UnlinkOfOnlyOpenFile`).
- The transfer handler ignores the format's result (`FailedFormat`, `OpenedOverStale`,
  `PartialFormatCorrupts`), does not delete the record before formatting (`InterruptedFormat`),
  programs the header magic words first (`TornHeader`), and adds 32 to a received count without
  looking at it, so a torn record can place a chunk on the boot header (`MessageIsSafe`,
  `TornRecordHitsHeader`, `WrappedChunkBoots`).
- `log_Write` needs at least two slots (`OneSlotOverruns`) and an index that does not wrap
  (`NextIsRead`).
- `buf_Cut` empties the buffer when `len` equals its size, whatever the offset, lengthens it for
  an offset past the end, and moves a negative number of bytes when the slice runs over the end:
  `CutIsRemoval`.
- `isnotbcd` does not look at the high nibble: `AcceptedIsBcd`, `HighNibblePasses`.

## Model

| member | source | states |
|---|---|---|
| SpiNor.AddressRoundTrip | drivers/spiflash.c:148-151 | the three address bytes a command carries name the meant address exactly when it is below 2^24 |
| SpiNor.PageWraps | drivers/spiflash.c:221-228 | bytes sent past the end of a 256-byte page land at the start of the same page |
| SpiNor.ProgramPageStraight | drivers/spiflash.c:225-228 | a page program that stays inside its page ANDs its data onto the bytes at its address and changes nothing else |
| SpiNor.ProgrammedJoin | drivers/spiflash.c:215-233 | programming two adjacent runs is programming their concatenation |
| SpiNor.ProgramBlank | drivers/spiflash.c:208-236 | programming an erased range leaves exactly the data there and the rest alone |
| SpiNor.PageFrame | drivers/spiflash.c:217-230 | write enable and one page-program frame AND the frame's data onto its page and leave the write latch clear |
| SpiNor.FirstPairFrame | drivers/spiflash.c:180-191 | the addressed frame of an auto-increment program writes two bytes and leaves the chip counting from the next pair |
| SpiNor.NextPairFrame | drivers/spiflash.c:195-201 | each later frame, which carries no address, writes the pair at the counter |
| SpiNor.SizeIsAddressable | drivers/spiflash.c:254-298 | every sector below the reported size is reached by the (n / 1024, n mod 1024) map if and only if all chips but the last have 1024 sectors and the last no more |
| SpiNor.KnownChips | drivers/spiflash.c:261-297 | the program command and number of sectors noted for each identifier, and which identifiers are none |
| SpiNor.SmallChipFirst | drivers/spiflash.c:261-280 | a 512-sector chip followed by one of 1024, both accepted by probing: sector 600 is below the reported size and on no chip |
| SpiNor.SectorInside | drivers/spiflash.c:322-325 | the sectors of the flat memory are exactly those the map finds on a chip |
| SpiNor.BoardIsMapped | drivers/spiflash.c:254-322 | the probed chips make one flat memory, of the reported size, if and only if all but the last have 1024 sectors and the last no more |
| SpiNor.FlatSplice | drivers/spiflash.c:341-344 | under the sector map, the last chip possibly smaller, a write inside one chip changes that range of the flat memory and no sector of any other chip |
| SpiNor.FlatProgrammed | drivers/spiflash.c:361-372 | the same for programming |
| SpiNor.SectorPlace | drivers/spiflash.c:322-325 | chip number and local sector give the flat position n * 4096 |
| SpiNor.SpiFlash.Init | drivers/spiflash.c:241-311 | probing the select lines in order records exactly the recognised chips, their program kind and the sum of their sizes; on a board of distinct lines the driver is then valid, knows the one program command each chip takes, reaches exactly the sectors of its map, and sees one flat memory if and only if the map fits the chips |
| SpiNor.SpiFlash.ProgramPagewise | drivers/spiflash.c:208-236 | the page loop, frame by frame, ANDs the whole buffer onto the memory at the address |
| SpiNor.SpiFlash.ProgramAutoIncrement | drivers/spiflash.c:176-206 | the auto-increment loop has the same effect and ends the mode |
| SpiNor.SpiFlash.SecErase | drivers/spiflash.c:332-349 | the sector is all ones afterwards; in the flat memory nothing else changes |
| SpiNor.SpiFlash.Program | drivers/spiflash.c:351-377 | with the one program command the chip takes, the sector is ANDed with the data and no other sector of any chip changes |
| SpiNor.SpiFlash.ReadLen | drivers/spiflash.c:313-330 | returns the bytes at the sector and offset of the flat memory |
| FlashJournal.FlushCompletes | mtd/flash.c:216-231 | the protected write-back, undisturbed, leaves the data in target and shadow sector and no index record; the unprotected one writes the target only |
| FlashJournal.FlushCutIsSafe | mtd/flash.c:216-231 | cut anywhere, with the sector being erased or programmed left arbitrary: the disk is safe (target old or new, or a record that means the target beside a complete shadow, no third sector changed) if and only if the record found means target, shadow or a sector that held the data anyway; any cut but between the record's header and the end of its data leaves it so |
| FlashJournal.ReplayCutIsSafe | mtd/flash.c:265-269 | a cut during recovery leaves a disk that is safe in the same sense, so recovery can start again |
| FlashJournal.FlushIsCrashSafe | mtd/flash.c:221-228 | recovery of a cut flush ends with the flush done or not done if and only if the record it finds is of that kind |
| FlashJournal.UnnamedRecordStrikes | mtd/flash.c:221-228 | the store (fs/sfs/sfs.c:263-272): the cut that is not safe, for every memory that has the sector: the record has its header and no data, and recovery overwrites sector 1023 of the first chip |
| FlashJournal.NameCut | mtd/flash.c:221-228 | the store (fs/sfs/sfs.c:271-272): power failing after j of the four bytes of the sector number: recovery is safe if and only if all are written, or the sector the number then means, given as a formula in j, is on the disk and is the target, the shadow, or one that held the data anyway |
| FlashJournal.AimIsSectorMap | drivers/spiflash.c:322-325 | the sector a recorded number is taken for, a negative one too, is the one the driver reaches by truncated division and the low ten bits, if that is on the disk |
| FlashJournal.ReplayCompletes | mtd/flash.c:265-269 | recovery from a record copies the shadow onto the named sector and removes the record |
| FlashJournal.EventIsAtomic | mtd/flash.c:216-231 | a write-back with crashes in it that leave such a record, and in the recoveries after it, happens entirely or not at all |
| FlashJournal.HistoryIsAtomic | mtd/flash.c:216-231 | over any history of write-backs, crashes at any point that leave such a record, and repeated crashes during recovery, the memory outside the shadow is that of some all-or-nothing history, and no record is left |
| FlashJournal.BootAsWritten | mtd/flash.c:263-270 | with the guard as written, booting ends on the disk recovery would leave if and only if there is no record and the sector it writes already equals the shadow; for sector contents outside the shadow, if and only if the sector wrongly written, or wrongly left alone, is the shadow or equals it |
| FlashJournal.BootDestroysSectorZero | mtd/flash.c:263-270 | a clean boot, with no crash before it, that overwrites sector 0 |
| FlashCache.SectorOf | mtd/flash.c:290-292 | sector number and offset computed from an address lie on the device and add up to the address |
| FlashCache.FlushKeepsView | mtd/flash.c:170-239 | a write-back, due or not, protected or not, never changes what callers see on either device |
| FlashCache.FlushSettles | mtd/flash.c:193-238 | after a forced write-back the devices hold what callers see |
| FlashCache.LoadKeepsView | mtd/flash.c:323-331 | evicting a sector and loading another changes nothing callers see |
| FlashCache.WriteChunkView | mtd/flash.c:319-336 | writing inside one sector, loaded or not, changes exactly that range of that device |
| FlashCache.WriteView | mtd/flash.c:308-340 | a write of any length, across sectors and evictions, changes exactly its range of its device and nothing on the other |
| FlashCache.ReadChunkView | mtd/flash.c:294-302 | what is read inside one sector, from the buffer or the device, is the range callers see |
| FlashCache.ReadView | mtd/flash.c:279-306 | a read of any length returns exactly the logical bytes |
| FlashCache.FillView | mtd/flash.c:464-476 | a fill changes exactly its range, to the fill value |
| FlashCache.SecWriteView | mtd/flash.c:361-400 | a whole-sector write touches that sector only, and leaves the data there if and only if the sector is in the buffer, or the data is all blank, or it has a non-blank word before its last |
| FlashCache.LastWordIsLost | mtd/flash.c:375-396 | data blank but for its last byte is lost whenever the sector is not in the buffer |
| FlashCache.FlushDurability | mtd/flash.c:176-238 | after flash_Flush(d) everything callers see is on the devices, or what is buffered was written less than d ago by the clock and nothing was done; a clock set back forces the write-back |
| FlashCommands.FlushWaits | mtd/flash.c:182-193 | flash_Flush(d) changes nothing and sends no command if and only if nothing is buffered, or the buffer is clean, or it was written at a time not after the clock and less than d before it; otherwise the buffer is clean afterwards and an SPI sector has been sent, shadow first if one is configured |
| FlashCache.CallIsDated | mtd/flash.c:308-400 | the time kept with the buffer is that of the last write: each write or fill of at least one byte and each sector write that goes through the buffer sets it to the clock, a direct erase and a read leave it, a flush leaves or clears it |
| FlashCache.WriteIsDated | mtd/flash.c:308-340 | a write of any length across sectors dates the buffer with the clock, an empty one leaves it |
| FlashCache.FillIsDated | mtd/flash.c:464-476 | so does a fill |
| FlashCache.WriteSurvivesEviction | mtd/flash.c:179-180 | a written byte, whatever its value, survives the next eviction if and only if the clock did not read zero at the write |
| FlashCache.DoRefines | mtd/flash.c:279-488 | each call gives the result and the visible memory that two plain byte arrays give |
| FlashCache.RunRefinesMemory | mtd/flash.c:279-488 | so does every run of reads, writes, fills, sector reads and writes, and flushes on both devices, each sector write being of a buffered sector or of data SecWriteView stores; results and final memory agree |
| FlashBuffer.Buffer.Init | mtd/flash.c:248-276 | flash_Init as written: it sends exactly the commands of the boot analysis and ends with an empty clean buffer |
| FlashBuffer.Buffer.ReplayShadow | mtd/flash.c:265-269 | the replay body: shadow read, target erased and programmed with it, record deleted |
| FlashBuffer.Buffer.StoreSpi | mtd/flash.c:224-225 | erase then program, through the driver, leaves the buffer in the sector and every other sector of every chip unchanged |
| FlashBuffer.Buffer.WriteBackInt | mtd/flash.c:198-205 | the internal sector holds the buffer afterwards |
| FlashBuffer.Buffer.WriteBackSpi | mtd/flash.c:217-230 | the protected sequence, command by command, has the effect of the specification |
| FlashBuffer.Buffer.WriteBackBuffer | mtd/flash.c:170-239 | _flash_Flush: the new state is that of the age rule, and the commands sent are those of the crash analysis or none |
| FlashBuffer.Buffer.FlushDelayed | mtd/flash.c:480-488 | flash_Flush: the same, and both logical memories are unchanged |
| FlashBuffer.Buffer.IntRead | mtd/flash.c:279-306 | the chunked loop returns exactly the logical bytes of the internal flash |
| FlashBuffer.Buffer.SpiRead | mtd/flash.c:403-430 | the chunked loop returns exactly the logical bytes of the SPI flash |
| FlashBuffer.Buffer.SpiSecRead | mtd/flash.c:347-359 | returns the logical contents of the sector |
| FlashBuffer.Buffer.IntLoad | mtd/flash.c:325-330 | write back, load, retarget the buffer; the commands sent are those of the write-back |
| FlashBuffer.Buffer.SpiLoad | mtd/flash.c:448-453 | the same through the SPI driver |
| FlashBuffer.Buffer.IntWrite | mtd/flash.c:308-340 | the chunked loop changes exactly the range written and, for a non-zero clock, keeps the buffer in step with its device; the commands sent are those of its evictions, in order |
| FlashBuffer.Buffer.SpiWrite | mtd/flash.c:432-462 | the same for the SPI flash |
| FlashBuffer.Buffer.SpiFill | mtd/flash.c:464-476 | the 64-byte loop fills exactly the range, sending the commands of its evictions |
| FlashBuffer.Buffer.ScanWords | mtd/flash.c:375-383 | the scan ends one word past the first non-blank word, or at the end when all are blank |
| FlashBuffer.Buffer.SpiSecWrite | mtd/flash.c:361-400 | cached, evicting and direct-erase paths: the new state and the commands sent are the specified ones |
| FlashCommands.WriteBackFollowsJournal | mtd/flash.c:216-231 | a write-back of the buffer is the complete run of the crash-analysed command sequence on the same sectors |
| FlashCommands.CallLeads | mtd/flash.c:279-488 | the commands of a call, in order, are all it does to the SPI flash and the index record |
| FlashCrash.CrashCostsAtMostTheBuffer | mtd/flash.c:216-231 | power failing in a write-back, leaving such a record, and again in any of the recoveries after it, leaves callers seeing on the SPI flash what they saw before, or that without the buffered sector's changes |
| FlashCrash.BufferOverDevice | mtd/flash.c:141-147 | what callers see is the device memory with the buffered sector over it |
| FlashCrash.CutInRun | mtd/flash.c:279-488 | power failing at any command of any run finds the state after some of its calls, perhaps part of the next, sending one write-back or one erase |
| FlashCrash.PowerFailsInRun | mtd/flash.c:216-488 | so for every run of calls and any number of crashes in the recoveries after it: the calls begun lead to a state that the cut is a cut of, in no command, its write-back or one erase; and what callers see on the SPI flash is what plain byte arrays hold after those calls, but for the buffered sector, or for the sector being erased |
| FlashCrash.PowerOffAfterRun | mtd/flash.c:248-488 | power off between calls, after any run, is one of those cases, and recovery then changes nothing |
| Paths.NormalizeExact | fs/dfs.c:268-376 | for every absolute path: if no prefix has more ".." than ordinary components the result is "/" and the joined components left by stack evaluation; and the result is an absolute path if and only if that holds |
| Paths.ClimbingGoesRelative | fs/dfs.c:357-365 | "/../a" gives "a" |
| Paths.ClimbingUnderruns | fs/dfs.c:368-373 | "/.." makes the last test read in front of the string |
| Paths.ClimbingTwiceIsRefused | fs/dfs.c:359-363 | "/../.." is refused |
| Paths.NormalizeYieldsNormalForm | fs/dfs.c:300-375 | a path that does not climb gives a normal form of ordinary components no longer than the input |
| Paths.NormalFormShape | fs/dfs.c:340-373 | a normal form other than "/" has no trailing slash and no two slashes in a row |
| Paths.NormalFormIsFixed | fs/dfs.c:300-375 | normal forms are fixed points |
| Paths.RelativeName | fs/dfs.c:287-294 | a relative name is evaluated on top of its directory: the normal form of that if it does not climb out, else no absolute path |
| Paths.NormalizeRelative | fs/dfs.c:300-375 | a text without a leading slash is refused if and only if a prefix has more ".." than ordinary components, read in front of its buffer if and only if nothing is left, and else becomes what is left, joined |
| PathRewrite.SkipSlashes | fs/dfs.c:347-350 | skips all slashes from the source pointer and only those |
| PathRewrite.CopyName | fs/dfs.c:340-342 | copies one component down to the destination, inside the buffer |
| PathRewrite.UpOne | fs/dfs.c:357-365 | drops exactly the last component behind the destination, or reports that there is none |
| PathRewrite.SkipDots | fs/dfs.c:308-338 | recognises exactly the components "." and "..", with the slashes after them |
| PathRewrite.CopyComponent | fs/dfs.c:340-355 | a component moves behind the destination pointer, which stays at or below the source pointer |
| PathRewrite.Rewrite | fs/dfs.c:300-366 | the in-place loop ends, stays in bounds, and leaves behind the destination pointer what walking the components leaves |
| PathRewrite.FinalText | fs/dfs.c:368-375 | dropping the last slash turns what the loop leaves into the result |
| PathRewrite.NormalizePath | fs/dfs.c:268-376 | for every directory and name, relative or absolute, with or without a working directory, the result, refusal or underrun is that of the component meaning |
| PathRewrite.NameInDirectory | fs/dfs.c:276-298 | a relative name given with a directory, or else with the working directory, is evaluated on top of that directory: the normal form of the two joined as components if it does not climb out, else no absolute path |
| PathRewrite.NameByItself | fs/dfs.c:276-298 | an absolute name ignores both, and a relative one with neither is refused |
| PathRewrite.NameInUsr | fs/dfs.c:287-294 | "lib" in the working directory "/usr" is "/usr/lib" |
| PathRewrite.NormalizeCString | fs/dfs.c:368-375 | the result has no terminator inside |
| Mounts.MatchIsPrefix | fs/dfs_fs.c:102-107 | on normalised paths the strncmp and separator tests are the component-wise prefix test |
| Mounts.LookupIsLongestPrefix | fs/dfs_fs.c:79-117 | lookup returns the last live entry among those whose components are the longest prefix of the path's, and null exactly when no live entry is a prefix |
| Mounts.MountSucceedsExactly | fs/dfs_fs.c:201-339 | a mount succeeds if and only if device and driver are there, the path normalises, its directory opens or is "/" or "/dev", the path as given is not live, an entry is free, and the driver has a mount operation that succeeds; it then fills the lowest free entry, and otherwise the table is as it was |
| Mounts.MountFailsBecause | fs/dfs_fs.c:201-339 | which error each failing mount ends with |
| Mounts.UnmountSucceedsExactly | fs/dfs_fs.c:348-386 | an unmount succeeds if and only if some live mount is a component prefix of the path and the driver lets go; it clears a longest such entry, and otherwise the table is as it was |
| Mounts.SubdirSplits | fs/dfs.c:245-258 | mount components followed by sub-path components are the path's; null exactly for the mount point itself; the sub-path is in normal form |
| Mounts.MountKeepsDistinct | fs/dfs_fs.c:268-295 | a successful mount keeps live paths distinct if and only if the normalised path was not live, which is certain for a path given in normal form |
| Mounts.DuplicateMount | fs/dfs_fs.c:272-277 | mounting "/a/" over a live "/a" succeeds and makes the same path live twice |
| Mounts.UnmountIsExact | fs/dfs_fs.c:363-374 | unmounting clears the entry mounted at that very path if and only if one is live, and no entry with another path; any other path clears the mount it lies in |
| Mounts.UnmountOfNothing | fs/dfs_fs.c:363-371 | unmount follows a null pointer if and only if no live mount is a prefix of the path |
| Mounts.UnmountOfEmptyTable | fs/dfs_fs.c:363-371 | such a path |
| Mounts.UnmountUndoesMount | fs/dfs_fs.c:289-295 | mounting a normal path and unmounting it restores the whole table |
| Mounts.RunKeepsDistinct | fs/dfs_fs.c:201-386 | over every run of mounts of normal paths and unmounts of any path, live paths stay normal and pairwise distinct |
| Mounts.FsTable.FilesystemLookup | fs/dfs_fs.c:79-117 | the scanning loop computes the lookup |
| Mounts.FsTable.MountFs | fs/dfs_fs.c:201-339 | every error branch leaves the table as it was, success fills the first free entry with the normalised path |
| Mounts.FsTable.UnmountFs | fs/dfs_fs.c:348-386 | clears what lookup finds; a driver that refuses leaves the table; nothing found is undefined behaviour |
| Descriptors.OpenKeepsInv | fs/dfs_posix.c:33-59 | open hands out a slot that was free, now open on the normalised path; a failing open leaves free slots free; no other slot changes |
| Descriptors.OpenAnswers | fs/dfs_posix.c:33-59 | open succeeds if and only if a slot is free, the name normalises to a path with a mount as component prefix, and the open operation exists and does not return a negative number; the descriptor is the lowest free one, held once, with the flags and type asked for; the error is else -1 without a slot or path, -2 without a mount, -38 without the operation, or the one the driver gave |
| Descriptors.FoundIsClaimed | fs/dfs_file.c:44-58 | the names that lookup finds a mount for are exactly those whose normal form has a mount as component prefix |
| Descriptors.CloseKeepsInv | fs/dfs_posix.c:69-92 | close of a live descriptor frees its slot (its count ends at -2), or, when the driver fails, leaves the table as it was |
| Descriptors.CloseAnswers | fs/dfs_posix.c:69-92 | close of a live descriptor answers 0 unless the close operation returns a negative number, which is then the error; a number out of range is an error and changes nothing |
| Descriptors.CloseBreaksExactly | fs/dfs.c:148-153 | close runs into undefined behaviour if and only if the number is one past the table or the slot is free |
| Descriptors.RunKeepsInv | fs/dfs_posix.c:33-92 | over every run from the cleared table each slot is either free and cleared or held once and open on a path |
| Descriptors.FoundIsNormal | fs/dfs_file.c:44-58 | whatever name is opened, a path that some mount claims is a normal form |
| Descriptors.DescriptorIsSeen | fs/dfs.c:208-226 | the path stored by open equals the one the busy check compares if and only if the mount is "/" or the driver takes relative paths and the file is not the mount point itself |
| Descriptors.SeenIsOpen | fs/dfs.c:221-226 | what the busy check finds on such a path is a live descriptor open on exactly that path |
| Descriptors.UnlinkBusyExactly | fs/dfs_file.c:242-247 | unlink of such a path answers EBUSY if and only if a live descriptor among the first DFS_FD_MAX slots is open on it, and otherwise asks the driver |
| Descriptors.UnlinkAfterRun | fs/dfs_file.c:220-266 | without stdio slots, after any run of open and close from the cleared table: EBUSY if and only if any live descriptor is open on the path |
| Descriptors.UnlinkOfOnlyOpenFile | fs/dfs_file.c:242-247 | with one file open, unlinking it is refused if and only if its path is one the check can compare |
| Descriptors.UnlinkAnswers | fs/dfs_file.c:220-266 | unlink succeeds if and only if the name has a mount, no match is found by the busy check, and the operation exists and does not return a negative number; the error is else -22, -2, -16, -38 or the one the driver gave, in that order |
| Descriptors.FdTable.FdNew | fs/dfs.c:97-129 | the first slot with a count of zero or less, held once; -1 and no change when there is none |
| Descriptors.FdTable.FdPut | fs/dfs.c:167-178 | one hold less; the slot is cleared at exactly zero |
| Descriptors.FdTable.FileOpenAt | fs/dfs_file.c:33-113 | every branch of dfs_file_open: what it fills in, what it clears, what it returns |
| Descriptors.FdTable.Open | fs/dfs_posix.c:33-59 | open as fd_new, fd_get, dfs_file_open and the fd_put calls gives the specified table and result |
| Descriptors.FdTable.Close | fs/dfs_posix.c:69-92 | close as fd_get, dfs_file_close and the fd_put calls gives the specified table and result; fd_get accepts one number too many |
| Descriptors.FdTable.FdIsOpen | fs/dfs.c:189-235 | the scan of the first DFS_FD_MAX slots finds a match exactly when there is one |
| Descriptors.FdTable.Unlink | fs/dfs_file.c:220-266 | every branch of dfs_file_unlink |
| Transfer.HeaderFields | cp/gdfts.c:148-155 | an area that starts with the header the handler builds boots, with the place to copy the image to, the receiver it is for, and that length and checksum |
| Transfer.MessageKeeps | cp/gdfts.c:123-229 | each operation of a harmless message keeps the header invariant at the moment it is carried out |
| Transfer.MessageIsSafe | cp/gdfts.c:123-229 | a message keeps the header safe wherever power fails in it if and only if it is harmless: it opens a transfer only after erasing the header's block or where none boots, its chunk, at its 32-bit address, does not make the header boot, and the boot header over what is there then describes the image or does not boot |
| Transfer.UsuallyHarmless | cp/gdfts.c:125-189 | formats that erase the header's block, chunks inside the memory and header programs that do not stop half-way, over a blank header, are harmless |
| Transfer.ChunkOverBlank | cp/gdfts.c:135-135 | over a blank header an open transfer's chunk is safe if and only if it does not put both magic words there, the zero bytes 0, 2, 5 and 7 programmed and no other byte but theirs |
| Transfer.TornRecordHitsHeader | cp/gdfts.c:135-142 | a record cut after five bytes, the received count ending in 0xE0, keeps its count and places the next chunk on the boot header |
| Transfer.WrappedChunkBoots | cp/gdfts.c:135-135 | the chunk of eight bytes that then makes the header boot while the transfer is open |
| Transfer.LandedInside | cp/gdfts.c:135-135 | a chunk inside the memory is programmed at its address and nowhere else |
| Transfer.CutKeepsInv | cp/gdfts.c:123-229 | so power may fail after any number of them |
| Transfer.EventKeepsInv | cp/gdfts.c:123-229 | one harmless message, its faults, a cut, and a torn erase that is safe keep the invariant |
| Transfer.RunKeepsHeaderSafe | cp/gdfts.c:125-215 | over any run of such events, with half-way stores, torn erases and chunks wherever a record places them, a boot header stands only over an image with its checksum and never beside a transfer record |
| Transfer.TornErase | cp/gdfts.c:61-61 | an erase of the first block cut short leaves a safe header if and only if what is left does not boot, or describes the image there with no transfer open |
| Transfer.TornEraseKeepsMagic | cp/gdfts.c:61-61 | one that keeps the header over a finished image is safe if and only if what it made of the image has the same checksum |
| Transfer.ResetExactly | cp/gdfts.c:157-163 | the reset answer is given if and only if the chunk finishes the image and the header program succeeds; where the chunk leaves the header's place blank, if and only if the message made a non-booting area boot by a program that succeeded, the header then carrying the place the image is copied to, the identifier of the receiver, and the announced length and checksum of the image |
| Transfer.ChunkReply | cp/gdfts.c:133-189 | a chunk that is waited for is answered OK if and only if it moved the record on or released the image, faults aside; the answer names the bytes the record holds unless a chunk was programmed and the record did not move |
| Transfer.BeginReply | cp/gdfts.c:171-189 | a begin message is answered with an error if and only if it opens a fresh record that cannot be stored; otherwise a fresh record is open, or the open transfer is left alone, and the sender is told where it stands |
| Transfer.ChunkTaken | cp/gdfts.c:133-145 | a chunk that is waited for, inside the memory, without a fault and with more to come: its bytes are programmed behind those received, the 16-bit count goes up, the received length grows by the chunk, and the answer says so |
| Transfer.ImageReleased | cp/gdfts.c:146-164 | a chunk that brings the announced length, inside the memory and without a fault: if and only if the image in flash then has the announced checksum, the record goes, the boot header is programmed and reset is answered; otherwise the record stays |
| Transfer.AbortEnds | cp/gdfts.c:193-205 | abort leaves no record and the download area as it was; its answer is OK if and only if a record was there |
| Transfer.InitClears | cp/gdfts.c:207-225 | init formats the area, forgets the record if and only if no block fails, and answers OK if and only if neither format nor store fails |
| Transfer.TornHeader | cp/gdfts.c:158-158 | a header program that stops after k bytes, for every k, boots if and only if k is at least 8, and is safe if and only if it does not boot or the area holds, at the length it then reads, an image with the checksum it then reads |
| Transfer.TornHeaderCases | cp/gdfts.c:158-158 | over a complete image, in areas below 0xFF000020 bytes: safe if and only if k < 8, or k is 16 to 18 and the checksum 0xFFFF, or k is 19 and its high byte 0xFF, or k is at least 20 |
| Transfer.FailedFormat | cp/gdfts.c:174-181 | the format result is ignored: however many blocks were erased, the new transfer opens with a safe header if and only if the first block was among them or there was no boot header |
| Transfer.StoreEffect | cp/gdfts.c:142-181 | the store (fs/sfs/sfs.c:253-272): a store that stops anywhere (old record gone, header written, some bytes of data) leaves the old record, none, or the torn one, and touches nothing else |
| Transfer.TornFields | cp/gdfts.c:142-181 | the store (fs/sfs/sfs.c:263-272): a record of which only some bytes were written reads, field by field, its written bytes and ones |
| Transfer.WholeRecord | cp/gdfts.c:131-142 | the store (fs/sfs/sfs.c:369-374): a record all of whose bytes are written is read back |
| Transfer.Receiver.DataFormat | cp/gdfts.c:54-69 | blocks are erased in order up to the first failure, which is reported |
| Transfer.Receiver.StoreRecord | cp/gdfts.c:142-181 | the store (fs/sfs/sfs.c:253-274): the record is replaced by removing the old one, writing the header, then the data, stopping where the fault says |
| Transfer.Receiver.HandleChunk | cp/gdfts.c:129-168 | a chunk: every branch, the operations it carries out in order, the record and the reply |
| Transfer.Receiver.Handle | cp/gdfts.c:86-235 | the handler carries out exactly the operations of the message and gives its reply; a wrong password changes nothing |
| TransferResume.ProgramPending | cp/gdfts.c:135-135 | programming the next chunk again, whole or in part, over what an interrupted try left ends in the chunk's bytes and disturbs nothing received |
| TransferResume.AdvanceResumes | cp/gdfts.c:137-142 | the chunk programmed and the record stored: one more chunk received, in order |
| TransferResume.FormatBlanks | cp/gdfts.c:54-69 | a complete format leaves every byte of the download area blank |
| TransferResume.InterruptedFormat | cp/gdfts.c:172-181 | a format cut short under an open transfer leaves it resumable if and only if the received bytes it erased were blank: the record is not deleted first |
| TransferResume.OpenedOverStale | cp/gdfts.c:172-181 | a transfer opened after a format of n blocks can take every plan if and only if every byte of the area after the header outside those blocks was blank |
| TransferResume.PartialFormatCorrupts | cp/gdfts.c:172-181 | an input that fails it: the chunk is answered OK, counted as received, and reads back wrong |
| TransferResume.TornStore | cp/gdfts.c:142-142 | a record torn after j bytes still says where to go on if and only if j is at least 8, or at least 4 with the missing bytes of the received count all ones |
| TransferResume.TornEraseResumes | cp/gdfts.c:61-61 | a format that power cuts short in a block leaves the transfer resumable if and only if received bytes are as they were and the rest of that block is blank or holds bytes of the chunk that is next |
| TransferResume.EventResumes | cp/gdfts.c:125-215 | after any message from a sender that keeps to its plan, with any faults and power failing anywhere, in the erase of a block too, the transfer can be resumed if and only if the event spared what it needs: a format erased nothing received or left nothing stale, a store wrote where to go on |
| TransferResume.StaleChunk | cp/gdfts.c:129-133 | a chunk with a count other than the stored one, or without an open transfer, changes neither flash nor record and is answered with an error that names the bytes received so far |
| TransferResume.RunResumes | cp/gdfts.c:125-215 | over any run of such events, with power loss between program and record and retries of the same chunk, data[0..reced) is the concatenation of the chunks taken, the count is one more than their number, and reced < len when len > 0 |
| SoftUart.TickSendsCell | drivers/swuart.c:234-363 | one tick puts the next cell of the frame (start, data from the lowest bit, parity, rest) on the pin; the frame takes 14, 15 or 16 ticks by parity and stop setting, never fewer |
| SoftUart.CellKeepsStep | drivers/swuart.c:132-368 | a cell later the receiver still follows the transmitter and no byte is lost, altered or repeated |
| SoftUart.SendKeepsStep | drivers/swuart.c:374-388 | queueing bytes and starting the transmitter at any moment keeps that |
| SoftUart.RunInStep | drivers/swuart.c:132-388 | for every interleaving of queued bytes and cells: received, under way and queued bytes together are what was sent, in order |
| SoftUart.CellCountsDown | drivers/swuart.c:234-363 | each cell is one of the number still to go |
| SoftUart.EverythingArrives | drivers/swuart.c:132-388 | after exactly that number of cells all that was sent has arrived |
| SoftUart.RoundTrip | drivers/swuart.c:67-388 | from rest, for every setting and every byte sequence, exactly that sequence arrives, in frame length cells a byte |
| SoftUart.ParityBalances | drivers/swuart.c:317-330 | with the parity bit, the ones among data and parity cells are even in number for even parity and odd for odd |
| SoftUart.LineHeard | drivers/swuart.c:67-231 | for every setting, any sender: from a line of frames (start bit, eight data bits from the lowest, a parity bit of either level if there is one, one or more cells at rest), after any pause before the first and with any pause or none between them, a port that is ready receives exactly the bytes of the frames, in order, and is ready again |
| SoftUart.FrameHeard | drivers/swuart.c:67-231 | each such frame delivers its byte, also when its start edge comes while the machine is still in the stop or wait states of the one before |
| SoftUart.RestHeard | drivers/swuart.c:207-223 | a line at rest brings a ready port nothing and leaves it ready |
| SoftUart.TransmittedFrame | drivers/swuart.c:234-363 | the transmitter's own frame is one of these, with its parity bit, its stop bits and four cells of pause |
| SoftUart.ReplyFollows | drivers/swuart.c:195-254 | a reply started while a byte is received, or in the wait states after it, whatever the line does: no cell of it and no byte of its queue goes before the receiver is idle, the timer runs on, and the tick after that sends the start bit of its first byte |
| SoftUart.RunKeepsSane | drivers/swuart.c:67-388 | over edges, ticks and starts in any order from rest: the timer runs exactly while a machine works, the edge interrupt is off while the bits of a frame are received, and it is on whenever nothing is sent and no frame is under way, so the port is never left deaf |
| SoftUart.StrayInterrupts | drivers/swuart.c:67-78 | an edge handled late does not disturb a frame under way; a tick with nothing to do stops the timer |
| SoftUart.SwUart.RxStart | drivers/swuart.c:67-78 | the start edge handler: a new frame begins from rest, stop and wait states only |
| SoftUart.SwUart.RxTx | drivers/swuart.c:132-368 | the timer handler: receiving before transmitting, else the timer stops |
| SoftUart.SwUart.Receive | drivers/swuart.c:142-231 | the receive switch, state by state |
| SoftUart.SwUart.Transmit | drivers/swuart.c:236-364 | the transmit switch, state by state |
| SoftUart.SwUart.Start | drivers/swuart.c:374-388 | starting at rest sends the first cell at once, otherwise only marks the state |
| RingLog.WriteKeeps | dbg/log.c:113-125 | a write appends to the unbounded log and keeps its last QTY - 1 records in the ring |
| RingLog.WriteStores | dbg/log.c:113-125 | the record holds kind, time and the first min(len, slot size) bytes of the message, and no other key but the index changes |
| RingLog.TornWriteKeeps | dbg/log.c:123-125 | power lost between record and index leaves every kept record, the cursor and the next read as they were |
| RingLog.IndexCutLosesLog | dbg/log.c:91-125 | power lost while the index is replaced: after the next start the log is kept if and only if the index still reads its length; without one everything is cleared |
| RingLog.InitKeepsLog | dbg/log.c:91-102 | a start that finds the index keeps the log, and sets the cursor, to 0, only if there is none |
| RingLog.CursorCut | dbg/log.c:137-157 | power lost while the cursor is replaced loses no record; the next read takes the record it should if and only if the number found is the cursor meant, or both are at the end, or both so old that the oldest kept is read; without a cursor old records are read again, with one of all ones unread ones are skipped |
| RingLog.ReadConsumes | dbg/log.c:137-158 | a read returns the record first written at its index, never an overwritten one; it skips only to land where QTY - 1 are left; it finds nothing exactly when the cursor is at the end |
| RingLog.OneSlotOverruns | dbg/log.c:148-157 | with QTY = 1 the cursor runs past the end of the log |
| RingLog.NextIsRead | dbg/log.c:124-157 | a reader that is up to date reads the next record written if and only if the 32-bit index does not wrap |
| RingLog.ReadsAreWritten | dbg/log.c:105-228 | over every interleaving of writes, cut writes, reads and cursor moves, each record read is the one written at its index |
| RingLog.ReadsIncrease | dbg/log.c:105-162 | over writes, cut writes and reads the indices read strictly increase |
| RingLog.Day0Finds | dbg/log.c:192-228 | the cursor ends on the first record from it on that is not empty and later than the day's start, or at the end |
| RingLog.RepositionedReads | dbg/log.c:164-190 | after log_Read2Start the next read returns the oldest record sure to be kept; after log_Read2End it finds nothing |
| RingLog.Log.Init | dbg/log.c:84-103 | missing numbers become zero; a missing index clears the store |
| RingLog.Log.Write | dbg/log.c:105-128 | the record, clipped to the slot size, and the index that follows |
| RingLog.Log.Read | dbg/log.c:130-162 | the store and the record taken are those of the specification |
| RingLog.Log.ReadToStart | dbg/log.c:164-178 | the cursor moves to the oldest record sure to be kept |
| RingLog.Log.ReadToEnd | dbg/log.c:180-190 | the cursor moves to the end |
| RingLog.Log.ReadToDay0 | dbg/log.c:192-228 | the scan loop finds the cursor of the specification |
| GrowBuffer.CutIsRemoval | lib/buffer.c:103-139 | buf_Cut removes the slice, clipped to the text, and nothing else if and only if offset is in the text and the slice ends in it or len exceeds the whole size (or everything is empty) |
| GrowBuffer.UnpushUndoesPush | lib/buffer.h:19-19 | buf_Unpush after buf_Push restores the text |
| GrowBuffer.RemoveDropsFirst | lib/buffer.h:20-20 | buf_Remove drops the first bytes, or all of them, for every length |
| GrowBuffer.CutBeforePush | lib/buffer.c:103-139 | a cut inside the text and a push commute |
| GrowBuffer.QueueConserves | lib/buffer.c:42-139 | over every run of pushes and removes, bytes taken followed by bytes left are the bytes there at first followed by the bytes pushed |
| GrowBuffer.Buffer.Push | lib/buffer.c:42-67 | the text grows by the data; the block stays the length rounded up to 128 |
| GrowBuffer.Buffer.PushData | lib/buffer.c:72-76 | the text grows by the low bytes of the number, lowest first |
| GrowBuffer.Buffer.FillWith | lib/buffer.c:81-98 | the text grows by that many copies; the result is an error exactly for none |
| GrowBuffer.Buffer.Cut | lib/buffer.c:103-139 | each case of buf_Cut on the block in place: removal, emptying, truncation, lengthening, and the negative move, which is refused |
| GrowBuffer.Buffer.Release | lib/buffer.c:145-159 | no text and no block |
| LittleEndian.LowBytesValue | lib/buffer.c:72-76 | the bytes pushed, read back as a number, are the number modulo 256^len |
| Bcd.NibblesAreDigits | lib/bcd.c:100-123 | nibble k of the converted number is (x / 10^k) mod 10 |
| Bcd.BinaryRoundTrip | lib/bcd.c:28-95 | converting to n BCD bytes and back gives x mod 10^2n |
| Bcd.BcdRoundTrip | lib/bcd.c:28-95 | converting from BCD and back gives the number again if and only if all its nibbles are decimal digits |
| Bcd.Bin2Bcd16 | lib/bcd.c:28-41 | the digits picked from the formatted text are the last four |
| Bcd.Bin2Bcd32 | lib/bcd.c:64-77 | the digits picked from the formatted text are the last eight |
| Bcd.Bin2Bcd64 | lib/bcd.c:100-123 | the division loop gives the last sixteen digits of every 64-bit number |
| Bcd.Bcd2Bin | lib/bcd.c:46-95 | bcd2bin16 and bcd2bin32: the weighted sum of the nibbles, which never wraps, whatever they are |
| Bcd.FromBcdWeighs | lib/bcd.c:46-95 | the number read from n bytes is the sum of nibble k times 10^k, digits or not |
| Bcd.Bcd2Bin8Weighs | lib/bcd.c:10-14 | so is that of the 8-bit converter, for every byte |
| Bcd.Bin2Bcd8Packs | lib/bcd.c:19-23 | the 8-bit converter gives the two low decimal digits, packed, if and only if there are no more |
| Bcd.IsNotBcd | lib/bcd.c:129-144 | returns 0 if and only if every low nibble is a digit |
| Bcd.ByteComesBack | lib/bcd.c:10-23 | the two 8-bit converters give a byte back if and only if its low nibble is a digit |
| Bcd.BinaryByteComesBack | lib/bcd.c:10-23 | in the other order, if and only if it is below 160 |
| Bcd.AcceptedIsBcd | lib/bcd.c:129-144 | bytes that pass the test are BCD if and only if all are below 0xA0 |
| Bcd.HighNibblePasses | lib/bcd.c:129-144 | 0xA0 passes and is not BCD |

## Left out

- FlashJournal.HistoryIsAtomic: recovery with the corrected guard, the guard as written being BootAsWritten; crashes that leave a harmless record, FlushIsCrashSafe and NameCut saying exactly which do.
- FlashJournal.EventIsAtomic: the same.
- FlashJournal.FlushCutIsSafe: a target other than the shadow sector; the code leaves it to its callers not to write that. Of the store (fs/sfs/sfs.c) the order header, data, removal is modelled, not its blocks and their compaction.
- FlashCrash.PowerFailsInRun: runs as RunRefinesMemory has them, with the shadow sector configured and recovery with the corrected guard; a sector being erased directly by spif_SecWrite may hold anything.
- FlashCache.RunRefinesMemory: addresses on the device and off the shadow sector, a non-zero clock, and sector writes that `SecWriteView` stores; the calls that bypass the buffer (flash_Program, flash_Erase, flash_Nolock*) make no promise about a buffered sector and are not in the runs.
- FlashBuffer.Buffer.SpiSecWrite: the direct erase of a blank sector is not under the shadow protocol, in the code or here.
- FlashBuffer.Buffer.Init: the marker record 0 and the first format of the index store (`mtd/flash.c:257-261`).
- FlashBuffer.Buffer.IntWrite: the clock is read once for a call, not once for a chunk; internal flash is a byte sequence that erases to ones and ANDs when programmed.
- SpiNor.SpiFlash.Program: the busy wait and its 50000-poll limit; a chip is idle when the next frame comes.
- SpiNor.SpiFlash.Init: what the probe reads from each select line is a parameter; the status register writes have no effect on the model.
- The external NOR device of `mtd/flash.c` and NAND.
- Descriptors.UnlinkAfterRun: no stdio slots, a fixed mount table, a path the busy check can compare (`DescriptorIsSeen` says exactly which those are).
- Descriptors.RunKeepsInv: callers close live descriptors; other numbers are in `CloseCall`. Reading, writing, seeking and directories are not modelled.
- Descriptors.FdTable.Open: what a driver answers is a parameter; size and pos fields are left out.
- Mounts.FsTable.MountFs: device, driver table, the test that the directory opens and the driver's mount result are parameters; mkfs, partitions and the table of drivers are left out.
- PathRewrite.NormalizePath: malloc and snprintf give the joined string; they do not fail.
- Transfer.RunKeepsHeaderSafe: events that MessageIsSafe and TornErase say are safe. A block whose erase reports failure is taken to be unchanged.
- Transfer.Receiver.Handle: the memory modelled starts with the download area; bytes of a chunk that land outside it are lost to it, and what the checksum code returns for an image that runs out of it is a parameter, as that code is. The bytes of the reply, its checksums and the relay to another thread are left out.
- TransferResume.RunResumes: the sender sends the same chunk again until it is taken, fewer than 65535 of them, and each event spares what EventResumes says is needed.
- SoftUart.RoundTrip: the peer only receives, and both ports run at the same rate, sampling once a cell; `LineHeard` takes other senders. 7-bit mode (compiled out), IrDA and smart-card pins.
- SoftUart.LineHeard: a sender at the receiver's own rate, whose frames have a stop cell at rest, and a receiver that does not send meanwhile.
- RingLog.ReadsAreWritten: an index below 2^32 and at least two slots; each store operation is whole but the last of a write, IndexCutLosesLog and CursorCut saying what else costs.
- RingLog.ReadsIncrease: the cursor is replaced whole; CursorCut says what a cut in it costs.
- RingLog.Day0Finds: for slots that hold their record; a slot whose read fails is read as an earlier record in the code and is passed over here.
- RingLog.Log.Read: the text of log_Decode; the record is returned instead.
- GrowBuffer.Buffer.Cut: offsets that are not negative, and sizes below the width of size_t.
- GrowBuffer.Buffer.Push: allocation failure, and data that lies inside the buffer itself.
- Bcd.Bcd2Bin: the table of powers of ten is taken as 10^k.
- Locks: every call runs to its end before the next; interrupts meet the UART between ticks only.
