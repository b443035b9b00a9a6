# Retroboard kernel: file system, router, scheduler and interpreter

This project models the parts of the kernel that carry its state and proves what they keep, for
every input and over whole runs. It is layered as the kernel is:

- `Words`, `Arithmetic`, `Counting`, `BusCache`, `BusRuns`: 32-bit words, the 32-byte write-back cache
  over the external RAM, and runs of accesses through it. `CachedBus` is a class over the three
  arrays; its ghost fields are the memory as its users see it (`Mem`), the cells modified since the
  window was fetched (`Written`) and a log of all raw writes (`RawWrites`).
- `FirstFit`, `Sectors`, `Blocks`, `Volume`, `Allocator`: markers, sectors, the layout invariant, a
  partition on the cached bus (`Device`, with the ghost field `disk`), and first-fit allocation.
- `FileData`, `Files`: where the bytes of a file lie among marker bytes, headers, the table of open
  files, and the transfer loops.
- `Extents`, `Chains`, `Directories`, `Removal`, `DirectoryFiles`, `DirectoryUpdates`: a directory
  as lists of handles, as a doubly linked chain of 30-byte files on the device, and the operations
  that walk and change it.
- `Format`, `Runs`, `DirectoryRuns`: formatting and opening a device, whole runs of calls on the
  device, and one directory over such runs.
- `Sessions`, `SessionCalls`: whole sessions with the table of open files, and the methods that carry
  them out.
- `Lists`, `Scheduling`, `Fairness`, `Processes`: the linked list, the scheduler over it with nested
  interrupts, the share of each process, and what a process meets when it runs.
- `Routing`, `RoutingRuns`, `RouterSends`, `RouterTiming`, `Networks`, `Delivery`: one router, its table
  over whole runs, what it sends and when, networks of routers, and the way of a packet through them
  under every order of handling.
- `Bits`, `Emulator`, `Instructions`, `EmulatorRuns`: the X4 interpreter, what each instruction
  computes, and what programs can rely on.

Code that updates state in place is a class with methods. Each such method is proved against a
specification function on values, and the properties are proved about those functions.

## Main results

- Memory: every run of reads and writes through the cache answers as plain memory would
  (`BusRuns.Serve`, `BusRuns.LastWriteWins`), and an access raw-writes a cell of the RAM
  exactly when it moves the window and the cell was written since the window was fetched
  (`BusRuns.RawWritesAreOwed`).
- Allocation: the search is a correct and complete first fit exactly under a condition on the markers
  (`FirstFit.SearchIsFirstFitIff`), which the partition of the kernel meets if no byte outside it, at a
  sector boundary, reads as free (`Volume.KernelPartitionIsGuarded`, `Allocator.FindPlace`). Over every
  session that opens only files, and deletes none while a slot names it, the markers decompose uniquely
  into free sectors and disjoint blocks, no sector is lost, and only allocation and release move a
  marker (`Sessions.SessionKeepsLayout`, `Sessions.OnlyAllocationMovesMarkers`, carried out by
  `SessionCalls.Serve`).
- Files: a transfer is accepted by the size that was on record when the file was opened. What that lets
  through stays in the file's own block exactly when the record takes no more sectors than the file has
  (`FileData.SlotStaysInsideIff`); calls keep the records true exactly when they end no file that a slot
  names and open nothing else (`Sessions.StaysHonestIff`); without that an accepted write can break the
  layout (`Sessions.StaleSlotBreaksLayout`). With it, what an accepted write stored is read back after
  any session that does not touch the file (`Sessions.WrittenDataSurvives`).
- Directories: over every such session that touches a directory only through additions, short of
  overflow, and removals, its chain stays well formed and its contents are the fold of those
  (`Sessions.DirectoryOverSessions`); one that is only added to is an append-only sequence
  (`Sessions.AppendOnlyOverSessions`); an addition keeps the chain exactly when it does not overflow
  the tail (`Directories.AddEntryKeepsChainIff`); a removal takes out one entry and keeps the chain
  (`Removal.RemoveEntryRemoves`); lookups answer by position and by least matching name.
- Format: an open recovers what a format wrote, and the root is found exactly from three sectors on
  (`Format.OpenRecoversFormat`, `Format.RootIsFoundIff`); an open finds nothing exactly when the header
  in memory lacks its mark, its capacity or its sector size (`Format.OpensEmptyIff`).
- Scheduler: a process of priority p below 255 in the cycle of the turn runs exactly once in every
  (length of the cycle) * (p + 2) turns (`Fairness.ExactlyOncePerPeriod`), whatever interrupts strike
  meanwhile (`Fairness.NothingElseRuns`); all n processes are in the cycle exactly when none behind the
  first is to run once (`Fairness.FairSharesIff`). A process is initiated on its first run only
  (`Processes.InitiatedOnce`), and asked to shut down exactly past 100 ticks (`Processes.AskedPastHundred`).
- Routing: in every acyclic network and every order of handling a packet is delivered, unchanged and
  exactly once, if the node is connected and never otherwise (`Delivery.DeliveredIffConnected`); the
  table always tells of the last control packet heard (`RoutingRuns.TableOfRun`), and a client heard
  last on its port is found by its address (`RouterSends.ClientIsFound`); the router looks for new
  devices on every 24611th turn of its first port (`RouterTiming.LooksEveryCycle`).
- Interpreter: pushed registers come back around any segment that keeps to its part of the stack
  (`EmulatorRuns.SavedRegistersComeBack`); the arithmetic instructions obey the laws of eight-bit
  arithmetic (`Instructions.SumsAndDifferences`, `Instructions.ProductsAndQuotients`,
  `Instructions.BitwiseResults`).

## Assumptions

- The allocator looks at one sector boundary for each byte of the partition. `Guarded` asks that each
  boundary past the partition that it looks at does not read as free, or wraps around the RAM to a
  sector of the partition again, and that the first and the last of them are of the first kind. So the
  RAM goes on behind the partition. `FirstFit.SearchIsFirstFitIff` says exactly when the search is
  right, guarded or not.
- Sectors have at least 32 bytes, since headers reach up to byte 31; directories need exactly 32, see
  `DirectoryUpdates.RoomTestIsSafeIff`.
- The RAM decodes addresses modulo its size, which divides 2^32. The board has peripherals from 0x40000
  on, where this model shows the RAM again; that no boundary outside the kernel's partition reads as
  free is assumed of what the bus shows there, too.
- What hardware and foreign code answer is a parameter: the devices that answer a probe, the packet
  that has come in, whether the heap has memory, what an interrupt service leaves behind, and
  what happens while a process runs: nested interrupts, and changes of the access window, the heap
  range and the super block.
- Networks: packets are not lost or altered on a link, tables no longer change, a port that leads to
  a router is known as one at both ends, and node addresses are unique.

## Where code and comments differ

- `kernel/fs/basefs/fsDevice.c:66-71` reads the sector-size field for the root directory.
- `kernel/fs/basefs/fsDirectory.c:79-91` makes a new extent one entry early, but stores the entry in
  the old one.
- `kernel/fs/basefs/fsDirectory.c:9-18` and `29-43` write into the device header when the allocation failed.
- `kernel/fs/basefs/fsDirectory.c:231` counts extents in eight bits, so every 256th extent that
  becomes empty stays.
- `kernel/scheduler.c:323-339`: the process is never killed, since the request to shut down returns first.
- `kernel/scheduler.c:276-283`: a process that is to run once stays in the list.
- `kernel/emulation/x4/x4.c:306-318`: the jump "if less" is also taken on equality.

## Model

| member | source | states |
|---|---|---|
| BusCache.CachedBus.constructor | kernel/bus/Retroboard_REV2/bus.c:249-267 | at power on the bus shows exactly what the RAM holds |
| BusCache.CellInjective | kernel/bus/Retroboard_REV2/bus.c:251-263 | no two of the 32 positions of a window name the same RAM cell, even when the window wraps around the end of the RAM |
| BusCache.CellOfWrapped | kernel/bus/Retroboard_REV2/bus.c:253 | cutting an address to 32 bits does not change the RAM cell that it names |
| BusCache.CachedBus.WriteBack | kernel/bus/Retroboard_REV2/bus.c:251-256 | the first half of a flush makes the RAM equal to what users see, and raw-writes the cells written since the window was fetched, each once and in the order of the window, and no other cell, clean or not |
| BusCache.CachedBus.WriteBackOne | kernel/bus/Retroboard_REV2/bus.c:252-255 | one turn of the loop raw-writes the cell behind the position if it is modified, and nothing otherwise |
| BusCache.PickedMembers | kernel/bus/Retroboard_REV2/bus.c:251-256 | the cells written back are those that are modified and lie behind a position of the window |
| BusCache.PickedOnce | kernel/bus/Retroboard_REV2/bus.c:251-256 | no cell is written back twice, even by a window that wraps around the end of the RAM |
| BusCache.CachedBus.FlushCache | kernel/bus/Retroboard_REV2/bus.c:249-267 | moving the window loses nothing that users wrote and changes nothing that they see, raw-writes exactly the cells written since the old window was fetched, and leaves a window in which nothing is modified |
| BusCache.CachedBus.Fetch | kernel/bus/Retroboard_REV2/bus.c:258-266 | loading fills every position of the new window with what users see there, all of it unmodified |
| BusCache.CachedBus.ReadMemory | kernel/bus/Retroboard_REV2/bus.c:269-278 | a read returns the byte that users last put in the addressed cell and changes no cell; a hit leaves the window and its modified cells as they are and raw-writes nothing, a miss moves the window there and raw-writes what was modified |
| BusCache.CachedBus.WriteMemory | kernel/bus/Retroboard_REV2/bus.c:281-294 | a write changes the addressed cell and no other, hit or miss; on a hit that cell joins the modified ones, on a miss it is the only one, and the raw writes are those of the flush |
| BusCache.CachedBus.WriteCached | kernel/bus/Retroboard_REV2/bus.c:282-287 | a write in the loaded window changes the one cell behind that position and adds it, and no other, to the modified ones |
| BusRuns.LastWriteWins | kernel/bus/Retroboard_REV2/bus.c:269-294 | after any run of accesses a cell of plain memory holds the value last written to it, or its initial value when none was |
| BusRuns.Serve | kernel/bus/Retroboard_REV2/bus.c:249-294 | for every run of reads and writes through the cache, each read answers as plain memory would at that moment, across all window moves and overlapping windows, and the log of raw writes is that of the specification |
| BusRuns.ServeOne | kernel/bus/Retroboard_REV2/bus.c:269-294 | one access does to memory, window and log what the specification says |
| BusRuns.WrittenIsOwed | kernel/bus/Retroboard_REV2/bus.c:269-294 | after any run the cells that count as modified are exactly those that some access wrote after the window was last moved |
| BusRuns.HitIff | kernel/bus/Retroboard_REV2/bus.c:249-294 | from power on an access hits if and only if its address is one of the 32 from that of the last miss on, and the window does not reach the end of the address space |
| BusRuns.RawWritesAreOwed | kernel/bus/Retroboard_REV2/bus.c:249-294 | from power on, after any run, an access raw-writes a cell if and only if it moves the window and the cell was written since the window was fetched; it does so once |
| BusRuns.OnlyWritesAreRawWritten | kernel/bus/Retroboard_REV2/bus.c:249-294 | every raw write of a run is to a cell that an access of the run wrote |
| Words.WordRoundTrip | kernel/fs/basefs/fs.c:47-52 | a 32-bit word stored as four bytes and read back is the same word |
| Words.BytesRoundTrip | kernel/fs/basefs/fsFile.c:174-179 | four bytes read as a word and stored back are the same bytes |
| FirstFit.SearchIsFirstFitIff | kernel/fs/basefs/fs.c:11-40 | the search, which looks at one boundary per byte instead of per sector, returns the lowest run of the partition, or 0 when it has none, if and only if the markers meet this: a block fits inside, or fits from the header on, or no free run behind the header reaches the end of the partition or starts after it and the last boundary looked at is not free |
| FirstFit.WrappedFit | kernel/fs/basefs/fs.c:11-40 | a run at an address that wraps to zero is a run at the header |
| FirstFit.SearchCanStray | kernel/fs/basefs/fs.c:11-40 | two partitions of 64 bytes with 32-byte sectors and no room on which it does not: one search reports a run behind the partition, the other the stale address 1 |
| FirstFit.SearchUnderShield | kernel/fs/basefs/fs.c:11-40 | when each boundary past the partition is not free or sees its sectors again, and the first and the last one are not free, the search is a correct and complete first fit |
| FirstFit.ShieldedIsQuiet | kernel/fs/basefs/fs.c:11-40 | behind such a shield no run reaches or passes the end of a partition without room |
| FirstFit.MirroredFit | kernel/fs/basefs/fs.c:20-30 | a run that sees the partition again would be a run of the partition |
| Allocator.BoundariesOfPartition | kernel/fs/basefs/fs.c:13 | under the guard the boundary bytes that the search reads are the markers of the partition, shielded by what follows |
| Allocator.BoundariesAreConsistent | kernel/fs/basefs/fs.c:13 | boundaries whose addresses are equal in 32 bits show the same byte |
| Allocator.OwnSectorMirrors | kernel/fs/basefs/fs.c:13 | from a boundary that wraps around the RAM to a sector of the partition, the search sees the partition again |
| Allocator.RunIsFree | kernel/fs/basefs/fs.c:20-30 | the inner loop accepts a sector exactly when a header and all data sectors are free from there on |
| Allocator.Search | kernel/fs/basefs/fs.c:11-37 | the outer loop leaves the address of the lowest run among all boundaries that it looks at, and otherwise the value of the last boundary |
| Allocator.FindPlace | kernel/fs/basefs/fs.c:8-40 | under the guard the search finds the first place of the partition, and its result is zero exactly when there is none |
| Allocator.WriteBlock | kernel/fs/basefs/fs.c:42-52 | marking writes one header marker, exactly the data markers that the size calls for, and the size |
| Allocator.FsAllocate | kernel/fs/basefs/fs.c:6-55 | allocation takes the lowest run of free sectors that fits and changes nothing when there is none |
| Allocator.FsFree | kernel/fs/basefs/fs.c:57-66 | freeing a block gives back all its sectors, counted from the size in its header, and changes nothing else |
| Volume.AgreesPut | kernel/fs/basefs/fsDevice.c:7-9 | replacing one byte of memory in the partition is replacing that byte of that sector, and keeps every other sector |
| Volume.AlignedIsGuarded | kernel/fs/basefs/fsDevice.c:73-86 | a partition on sector boundaries is guarded if memory goes on behind it, the search does not end inside it, and no boundary outside it reads as free |
| Volume.KernelPartitionIsGuarded | kernel/kernel.c:28 | the partition that the kernel formats at boot is guarded in the 0x40000 bytes of external memory that the board is configured with, and in the larger ranges that the bus can address, unless a byte outside it reads as free |
| Volume.Device.ReadByte | kernel/fs/basefs/fsDevice.c:11-13 | a byte read through the bus is that byte of the sector |
| Volume.Device.WriteByte | kernel/fs/basefs/fsDevice.c:7-9 | a byte written through the bus changes that byte of the sector and nothing else |
| Volume.Device.ReadWord | kernel/fs/basefs/fsFile.c:174-179 | a four-byte field is read as the word that the sector holds there |
| Volume.Device.WriteWord | kernel/fs/basefs/fsFile.c:212-218 | a four-byte field is replaced by the word, and no other byte of the device changes |
| Volume.Device.WriteMarks | kernel/fs/basefs/fs.c:44-45 | a marker is written to exactly the given number of sectors in a row |
| Blocks.DataSectorsQuotient | kernel/fs/basefs/fs.c:8 | the recursive count of data sectors is the quotient that the allocator computes, size / (sector_size - 1) + 1 |
| Blocks.DecompositionIsUnique | kernel/fs/basefs/fs.c:6-66 | under the layout invariant a sector is free exactly when it lies in no block, and no sector lies in two |
| Blocks.LayoutFrame | kernel/fs/basefs/fs.c:6-66 | only markers and sizes decide the layout: a device that agrees in those has the same blocks |
| Blocks.AllocateKeepsLayout | kernel/fs/basefs/fs.c:42-52 | allocation keeps the layout, adds exactly one block of the requested size, made of sectors that no block held, and changes no other sector |
| Blocks.ReleaseKeepsLayout | kernel/fs/basefs/fs.c:57-66 | freeing keeps the layout, removes exactly one block, and changes only the markers of its sectors |
| Blocks.ReleaseUndoesAllocate | kernel/fs/basefs/fs.c:42-66 | freeing a block right after its allocation restores every marker |
| Blocks.SectorsAreConserved | kernel/fs/basefs/fs.c:6-66 | free sectors and the sectors of all live blocks always add up to sector_count - 1 |
| FileData.PlaceIsUnique | kernel/fs/basefs/fsFile.c:96-104 | sector and place of a byte are the only ones that add up to its index |
| FileData.PositionOfByte | kernel/fs/basefs/fsFile.c:96-104 | the position that the loops compute from a running counter is that of the byte's own sector and place; it never hits a marker byte |
| FileData.PositionInClosedForm | kernel/fs/basefs/fsFile.c:96-104 | that position equals sector_size * (1 + i / (sector_size - 1)) + 1 + i % (sector_size - 1) |
| FileData.SectorsGrow | kernel/fs/basefs/fsFile.c:96-104 | a later byte never lies in an earlier sector |
| FileData.WrittenBytes | kernel/fs/basefs/fsFile.c:93-113 | a write puts each byte at its index and changes no other byte of the file |
| FileData.ReadBack | kernel/fs/basefs/fsFile.c:88-145 | what a write stored is what a read of the same length returns |
| FileData.WriteFrame | kernel/fs/basefs/fsFile.c:93-113 | a write changes no marker, no header, and no sector past the last byte written |
| FileData.AcceptedSizes | kernel/fs/basefs/fsFile.c:93-94 | the guard accepts the sizes up to the recorded size plus 2, unless that sum wraps |
| FileData.OwnWriteStaysInside | kernel/fs/basefs/fsFile.c:93-113 | a write that ends in the block of its own file keeps the layout, every header and every other block |
| FileData.SlotStaysInsideIff | kernel/fs/basefs/fsFile.c:71-94 | every write that a slot accepts by its recorded size stays in the block of its file if and only if the recorded size takes no more sectors than the size in the header, or plus 2 wraps so that no byte is let through |
| FileData.WriteSparesOthersIff | kernel/fs/basefs/fsFile.c:93-113 | a write of n bytes through any slot, stale or not, spares every other block for all data if and only if each sector that it covers is free or in the block of its own file |
| Files.PaddedIsStable | kernel/fs/basefs/fsFile.c:148-172 | a stored name, read as a C string and padded again, is itself |
| Files.CleanName | kernel/fs/basefs/fsFile.c:160-168 | a name is stored up to its terminator and filled up with spaces to ten characters |
| Files.CreateKeepsLayout | kernel/fs/basefs/fsFile.c:9-26 | creating a file adds one block of the requested size and changes no sector of any other file |
| Files.WriteHeader | kernel/fs/basefs/fsFile.c:14-24 | the header fields of a new file, name, attributes, links and flag, are those of the specification and its marker and size stay |
| Files.NewHeaderBytes | kernel/fs/basefs/fsFile.c:14-24 | byte by byte, the header of a new file holds the padded name, the attributes of a file, no flags and no links, and keeps the rest |
| Files.FsFileCreate | kernel/fs/basefs/fsFile.c:9-26 | a file is created at the first place with room for it; without one nothing changes and the handle is zero |
| Files.OpenFiles.constructor | kernel/fs/basefs/fsFile.c:6-7 | the table of open files starts with every slot free |
| Files.FreeSlot | kernel/fs/basefs/fsFile.c:53-61 | the slot taken is the first free one |
| Files.FsFileOpen | kernel/fs/basefs/fsFile.c:52-75 | opening records address and size in the first free slot and no other, and refuses a sector that is not in use |
| Files.FsFileClose | kernel/fs/basefs/fsFile.c:77-86 | closing frees exactly the given slot, and refuses one that is not open |
| Files.CursorIsPlace | kernel/fs/basefs/fsFile.c:96-110 | after the skip of a full sector the running counter names the sector and the offset of the next byte |
| Files.SkipMarker | kernel/fs/basefs/fsFile.c:98-104 | the skip step of both transfer loops keeps the counter in step with the byte index |
| Files.MayTransfer | kernel/fs/basefs/fsFile.c:89-94 | a transfer is accepted exactly for an open slot and a size that the wrapping guard admits |
| Files.TransferHasRoom | kernel/fs/basefs/fsFile.c:93-94 | what the guard accepts by the recorded size stays in the own block of the open file, if that size takes no more sectors than the one in the header |
| Files.StoreBytes | kernel/fs/basefs/fsFile.c:96-113 | the writing loop, which skips marker bytes, stores the buffer as the bytes of the file |
| Files.LoadBytes | kernel/fs/basefs/fsFile.c:126-143 | the reading loop fills the buffer with the bytes of the file and leaves the rest of it alone |
| Files.FsFileWrite | kernel/fs/basefs/fsFile.c:88-116 | an accepted write stores the first size - 1 bytes of the buffer as the start of the file; a refused one changes nothing |
| Files.FsFileRead | kernel/fs/basefs/fsFile.c:118-145 | an accepted read returns the first size - 1 bytes of the file; a refused one leaves the buffer |
| Extents.OverflowIff | kernel/fs/basefs/fsDirectory.c:66-107 | a handle has no room in the extent that it goes to exactly when the walk made a new extent behind a last one that is full |
| Extents.AddedAddsOne | kernel/fs/basefs/fsDirectory.c:62-129 | adding keeps every handle and adds exactly one, whatever removals came before |
| Extents.AddedAppends | kernel/fs/basefs/fsDirectory.c:62-129 | on a directory that was only added to, adding appends to the walk order and never overflows an extent, although a new extent is made one entry early |
| Extents.AddingIsAppending | kernel/fs/basefs/fsDirectory.c:62-129 | any number of additions reads back as the list of handles added, in order |
| Extents.RemovedLosesOne | kernel/fs/basefs/fsDirectory.c:241-273 | removing takes out exactly one occurrence of one handle |
| Extents.EmptiedStaysIff | kernel/fs/basefs/fsDirectory.c:231-264 | an extent that a removal empties stays if and only if its number is a multiple of 256 |
| Extents.LongDirectoryKeepsEmpty | kernel/fs/basefs/fsDirectory.c:231-264 | a concrete directory of 257 extents, packed, in which the emptied last one stays |
| Extents.RemovalCanLeaveOverflow | kernel/fs/basefs/fsDirectory.c:79-91 | a concrete directory on which a removal that drops the last extent makes the next addition overflow |
| Chains.ChainIsUnique | kernel/fs/basefs/fsDirectory.c:131-141 | the links alone determine the extents of a directory |
| Chains.ChainLength | kernel/fs/basefs/fsDirectory.c:131-141 | a chain has no more extents than the device has sectors, so every walk along it ends and no count wraps |
| Chains.NodeBlock | kernel/fs/basefs/fsDirectory.c:10 | header and body of an extent lie in its own block of two sectors, and in no other extent |
| Chains.StoreKeepsChain | kernel/fs/basefs/fsDirectory.c:109-126 | storing a handle in an extent with room appends to that extent alone, and keeps all links |
| Chains.StoreKeepsLayout | kernel/fs/basefs/fsDirectory.c:109-126 | storing a handle, even an eighth one that is cut off, changes the two sectors of its extent only and no marker or size |
| Chains.ExtentIsNode | kernel/fs/basefs/fsDirectory.c:29-43 | a new extent is empty, holds the given links, and is made of sectors that no block held |
| Chains.ExtentHeaderBytes | kernel/fs/basefs/fsDirectory.c:31-41 | byte by byte, the header of a new extent holds its own attributes, no entries and the two links, and keeps the rest |
| Chains.RelinkKeepsNodes | kernel/fs/basefs/fsFile.c:212-234 | changing a link of a header changes no extent but for that link |
| Chains.LinkedKeepsChain | kernel/fs/basefs/fsDirectory.c:71-91 | linking a new extent behind the last one keeps the chain well formed in both directions and adds an empty extent |
| Directories.ExtendedKeepsChain | kernel/fs/basefs/fsDirectory.c:66-102 | making an extent where one is needed keeps the chain and its contents |
| Directories.AddEntryAdds | kernel/fs/basefs/fsDirectory.c:62-129 | short of an overflow an addition keeps the chain well formed and does to its contents what the list of handles says |
| Directories.AddEntryKeepsChainIff | kernel/fs/basefs/fsDirectory.c:79-107 | an addition keeps the chain well formed if and only if it does not overflow the tail |
| Directories.AddEntryFrame | kernel/fs/basefs/fsDirectory.c:62-129 | an addition, overflow or not, allocates at most one extent and changes no sector of any file outside the directory |
| Directories.AddWithoutRoomIff | kernel/fs/basefs/fsDirectory.c:79-107 | an addition that calls for an extent behind others, and finds no room for it, keeps the layout; the chain stays well formed, with the handle behind the others, if and only if the last extent had not counted seven entries |
| Directories.FailedLink | kernel/fs/basefs/fsDirectory.c:79-91 | linking an extent that was not made changes the device header only |
| Directories.DirectoryIsAppendOnly | kernel/fs/basefs/fsDirectory.c:62-180 | a directory that is only added to is an append-only sequence, however many extents it takes, and no extent ever counts more than seven entries |
| Removal.TakenOutSwaps | kernel/fs/basefs/fsDirectory.c:252-259 | taking an entry out of an extent moves the last entry to its place and counts one less |
| Removal.TakenOutKeepsChain | kernel/fs/basefs/fsDirectory.c:252-259 | taking an entry out leaves all other extents and all links alone |
| Removal.BypassedSkips | kernel/fs/basefs/fsDirectory.c:265-270 | the bypass makes both neighbours of an extent point past it and changes no other link; at the end of the chain it writes into unused bytes of the device header |
| Removal.SkippedChain | kernel/fs/basefs/fsDirectory.c:265-270 | past a bypassed extent next and parent are again mutually inverse, and the chain holds everything but that extent |
| Removal.ReleaseOutside | kernel/fs/basefs/fsFile.c:28-33 | deleting a file outside a directory leaves the directory alone |
| Removal.RemoveEntryRemoves | kernel/fs/basefs/fsDirectory.c:229-286 | a removal keeps the chain well formed, keeps its first node, and takes exactly the one entry out of its contents |
| Removal.EmptiedExtentStaysIff | kernel/fs/basefs/fsDirectory.c:229-286 | on the device, a removal of the only entry of an extent keeps the chain as it was if and only if the number of the extent is a multiple of 256 |
| Removal.RemovalThenAdditionBreaks | kernel/fs/basefs/fsDirectory.c:79-91 | on the device, after a removal that drops the third extent behind two full ones the next addition breaks the chain |
| Removal.RemoveEntryFrame | kernel/fs/basefs/fsDirectory.c:250-272 | a removal ends exactly the file named and an extent that it empties |
| Removal.RemoveEntryKeepsFiles | kernel/fs/basefs/fsDirectory.c:250-272 | a removal changes no sector of a file that neither is removed nor belongs to the directory |
| DirectoryFiles.BodyOf | kernel/fs/basefs/fsDirectory.c:113-116 | the body of a directory lies in one piece behind the marker of its one data sector |
| DirectoryFiles.WrittenBody | kernel/fs/basefs/fsDirectory.c:125 | writing back a body replaces just those bytes |
| DirectoryFiles.OpenBody | kernel/fs/basefs/fsDirectory.c:111-116 | an extent is opened in a free slot and its 29 body bytes are read |
| DirectoryFiles.PickInNode | kernel/fs/basefs/fsDirectory.c:148-175 | one extent of the walk by index yields the wanted entry, or counts all its entries and goes on |
| DirectoryFiles.FsDirectoryFindByIndex | kernel/fs/basefs/fsDirectory.c:143-180 | lookup by index returns handle k of the walk order, and 0 for every index that is not below the total size; the table of open files is as before |
| DirectoryFiles.FsDirectoryGetTotalSize | kernel/fs/basefs/fsDirectory.c:131-141 | the total size is the number of handles of the whole chain |
| DirectoryFiles.CreatedName | kernel/fs/basefs/fsFile.c:9-26 | a created file has, for every later lookup, the name that it was created with |
| DirectoryFiles.FsFileGetName | kernel/fs/basefs/fsFile.c:148-157 | the name read over a buffer of spaces is the stored one up to its terminator, padded |
| DirectoryFiles.NameByByte | kernel/fs/basefs/fsFile.c:148-157 | the name compared is the ten bytes stored, blanked from the first zero byte on |
| DirectoryFiles.FirstNamedIsLeast | kernel/fs/basefs/fsDirectory.c:201-217 | the file that a lookup by name stands for is the entry with the least index whose name matches |
| DirectoryFiles.NamedInNode | kernel/fs/basefs/fsDirectory.c:193-222 | one extent of the walk by name yields its first match, or none and the next extent |
| DirectoryFiles.FsDirectoryFindByName | kernel/fs/basefs/fsDirectory.c:182-226 | lookup by name returns the first file of the walk order whose padded name equals the padded query, and in a directory without an entry 0 it returns 0 exactly when there is none |
| DirectoryFiles.ZeroMeansNoneIff | kernel/fs/basefs/fsDirectory.c:182-226 | the answer 0 means that no entry has the name, if and only if the first entry with the name is not itself a 0 |
| DirectoryFiles.ZeroCanBeNamed | kernel/fs/basefs/fsDirectory.c:182-226 | a directory with an entry 0, which is found by the name that sector 0 holds, although the answer is 0 |
| DirectoryUpdates.DirectoryKeepsLayout | kernel/fs/basefs/fsDirectory.c:9-18 | creating a directory adds one block and changes no sector of any other file |
| DirectoryUpdates.DirectoryHeaderBytes | kernel/fs/basefs/fsDirectory.c:12-16 | byte by byte, the header of a new directory differs from that of a file in the last attribute and in counting no entries |
| DirectoryUpdates.DirectoryStartsEmpty | kernel/fs/basefs/fsDirectory.c:9-18 | a new directory is a chain of one node that holds nothing |
| DirectoryUpdates.FsDirectoryCreate | kernel/fs/basefs/fsDirectory.c:9-18 | a directory is created at the first place; when there is none the unchecked code writes its fields into the device header |
| DirectoryUpdates.FsDirectoryExtentCreate | kernel/fs/basefs/fsDirectory.c:29-43 | an extent is created at the first place with the given links; when there is none the unchecked code writes its fields into the device header |
| DirectoryUpdates.FindRoom | kernel/fs/basefs/fsDirectory.c:76-102 | the walk stops at the first extent with room for two more entries, or at the last one and says that all are full |
| DirectoryUpdates.RoomTestIsSafeIff | kernel/fs/basefs/fsDirectory.c:66-81 | the fullness test, which speaks of the sector size, lets in only entries that fit the 29 bytes written back if and only if sectors have at most 32 bytes |
| DirectoryUpdates.TargetFound | kernel/fs/basefs/fsDirectory.c:66-107 | what the walk found is the extent that the handle goes to, and whether an extent is needed |
| DirectoryUpdates.FindTarget | kernel/fs/basefs/fsDirectory.c:63-107 | the first part of an addition makes an extent exactly where one is needed and yields the right one |
| DirectoryUpdates.StoreEntry | kernel/fs/basefs/fsDirectory.c:109-126 | the second part counts the entry and writes it into the body; of an eighth entry only the first byte arrives |
| DirectoryUpdates.FsDirectoryAddFile | kernel/fs/basefs/fsDirectory.c:62-129 | the whole addition transforms the device and the chain as specified, with room for the extent that it calls for or behind others without, and leaves the table of open files as it was |
| DirectoryUpdates.SwappedOutBody | kernel/fs/basefs/fsDirectory.c:252-257 | swapping in the buffer and writing it back is swapping in the sector |
| DirectoryUpdates.DeleteEntry | kernel/fs/basefs/fsDirectory.c:250-260 | the file is freed and its entry taken out of the open extent |
| DirectoryUpdates.UnlinkExtent | kernel/fs/basefs/fsDirectory.c:265-272 | the emptied extent is bypassed and freed |
| DirectoryUpdates.FindFile | kernel/fs/basefs/fsDirectory.c:233-282 | the walk finds the first entry that is the handle, and counts the extents passed in eight bits |
| DirectoryUpdates.FsDirectoryRemoveFile | kernel/fs/basefs/fsDirectory.c:229-286 | the whole removal deletes the file of the first matching entry and transforms the device as specified, and does nothing when no entry matches; the table of open files is as before |
| Format.BlankPlace | kernel/fs/basefs/fsDevice.c:79-95 | on a device with all sectors free the first block goes to sector 1, if the device has three sectors |
| Format.FormattedLayout | kernel/fs/basefs/fsDevice.c:73-111 | formatting leaves a well-formed device whose only block is the empty root directory |
| Format.FsDeviceFormat | kernel/fs/basefs/fsDevice.c:73-111 | a format yields the partition of the given bounds and sector size, turns the sectors that memory held there into the formatted ones, leaves every byte of memory outside it as it was, and the guard still holds |
| Format.RootIsNamed | kernel/fs/basefs/fsDevice.c:95-97 | the root directory of a formatted device is named root and has the attributes of a directory |
| Format.FsDeviceOpen | kernel/fs/basefs/fsDevice.c:26-50 | an open yields the partition that the header describes, or an empty one when it is not that of a device |
| Format.OpensEmptyIff | kernel/fs/basefs/fsDevice.c:26-49 | what an open finds is empty if and only if one of the first three bytes in memory is not 0x13, f, s, or all four bytes of the capacity or of the sector size are zero |
| Format.DamageHidesDevice | kernel/fs/basefs/fsDevice.c:37-46 | changing any one of the three identifying bytes of a header makes an open answer empty |
| Format.DamagedFormatIsHidden | kernel/fs/basefs/fsDevice.c:26-111 | so does changing one of them on a formatted device |
| Format.FsDeviceGetRootDirectory | kernel/fs/basefs/fsDevice.c:66-71 | the root lookup returns what the field of the sector size holds |
| Format.HeaderOfDevice | kernel/fs/basefs/fsDevice.c:26-71 | the header bytes read at the address of a partition are those of its sector 0 |
| Format.OpenRecoversFormat | kernel/fs/basefs/fsDevice.c:26-111 | an open after a format of at least three sectors recovers block size, sector size and sector count |
| Format.RootIsFoundIff | kernel/fs/basefs/fsDevice.c:66-108 | the root lookup, although it reads the wrong field, returns the handle that the format made if and only if the device has at least three sectors |
| Format.FieldAfterFailedCreate | kernel/fs/basefs/fsDirectory.c:9-18 | the fields of a directory, written over a device header, clear the sector size in it, below 2^24 |
| Format.CreateKeepsDeviceIff | kernel/fs/basefs/fsDirectory.c:9-18 | creating a directory keeps the partition that an open finds if and only if there is room for the directory; without room an open finds an empty partition |
| Format.FieldAfterFailedExtent | kernel/fs/basefs/fsDirectory.c:29-43 | the fields of an extent, written over a device header, clear the sector size in it |
| Format.ExtentKeepsDeviceIff | kernel/fs/basefs/fsDirectory.c:29-43 | making an extent keeps the partition that an open finds if and only if there is room for it |
| Format.AddWithoutRoomLosesDevice | kernel/fs/basefs/fsDirectory.c:79-126 | an addition behind a last extent of six entries without room keeps the chain and appends the handle, but an open no longer finds the device |
| Runs.StepKeepsLayout | kernel/fs/basefs/fs.c:6-66 | every call on the device, create, delete, write within a block, header edit, add and remove, keeps the layout, with room for a creation or without |
| Runs.StepKeepsFile | kernel/fs/basefs/fsFile.c:9-145 | a file that a call on the device does not touch stays alive, keeps its sectors, and keeps their bytes |
| Runs.StepLives | kernel/fs/basefs/fs.c:6-66 | each call on the device brings to life and ends exactly the files that it says |
| Runs.StepKeepsSize | kernel/fs/basefs/fs.c:47-52 | a file that is alive before and after a call on the device keeps its size |
| Runs.OnlyAllocationMovesMarkers | kernel/fs/basefs/fs.c:42-64 | a marker changes only where the call on the device allocates the block that covers the sector or frees the one that did |
| Runs.RunKeepsLayout | kernel/fs/basefs/fs.c:6-66 | after any run of calls on the device, whose writes stay in their blocks, the markers decompose in exactly one way into free sectors and disjoint blocks, and no sector is lost |
| Runs.FormattedRuns | kernel/fs/basefs/fsDevice.c:73-111 | the same for every such run from a freshly formatted device |
| Runs.RunKeepsFile | kernel/fs/basefs/fsFile.c:88-145 | across any such run that does not touch it a file keeps its header and reads back as before |
| Runs.WrittenDataSurvives | kernel/fs/basefs/fsFile.c:88-145 | what a write within a block stored is read back, even after any such run that does not touch the file |
| Runs.PlaceIsStable | kernel/fs/basefs/fs.c:6-66 | allocating, freeing and allocating again finds the same place, so the same handle |
| Sessions.HonestDeed | kernel/fs/basefs/fsFile.c:88-94 | a slot that names a live file and has its size on record accepts, by that record, only writes in the block of that file |
| Sessions.StaysHonestIff | kernel/fs/basefs/fsFile.c:28-116 | while every open slot names a live file and has its size on record, each call keeps the layout, and the slots stay so if and only if the call ends no file that a slot names and opens no sector but that of a file |
| Sessions.SessionIsRun | kernel/fs/basefs/fsFile.c:28-116 | a session of opens, closes, writes accepted by the recorded size and calls on the device, that opens only files and deletes none while a slot names it, is a run on the device whose writes stay in their blocks |
| Sessions.SessionKeepsLayout | kernel/fs/basefs/fsFile.c:28-116 | after any such session the markers decompose in exactly one way into free sectors and disjoint blocks, no sector is lost, and each open slot names a live file whose size it records |
| Sessions.FormattedSessions | kernel/fs/basefs/fsDevice.c:73-111 | the same from a freshly formatted device with nothing open |
| Sessions.OnlyAllocationMovesMarkers | kernel/fs/basefs/fsFile.c:28-116 | in such a state a marker changes only by a call that allocates the block that covers the sector or frees the one that did, never by an open, a close or an accepted write |
| Sessions.WrittenDataSurvives | kernel/fs/basefs/fsFile.c:88-145 | what an accepted write stored is what the file holds after any such session that does not touch the file, and each slot that then names it accepts a transfer of that size |
| Sessions.DirectoryOverSessions | kernel/fs/basefs/fsDirectory.c:62-286 | in such a session a directory touched only by its additions, short of overflow, and removals keeps a well-formed chain, and its contents are what those make of it in order |
| Sessions.AppendOnlyOverSessions | kernel/fs/basefs/fsDirectory.c:62-129 | a directory that such a session only adds to is an append-only sequence |
| Sessions.StaleSlotBreaksLayout | kernel/fs/basefs/fsFile.c:28-94 | the condition is needed: a file of 100 bytes is opened and deleted, two of 30 follow, and a write of size 63 through the old slot is accepted, overwrites the header of the second and breaks the layout |
| SessionCalls.ServeOpen | kernel/fs/basefs/fsFile.c:52-75 | an open takes the slot and records the address and the size that the session model says |
| SessionCalls.ServeClose | kernel/fs/basefs/fsFile.c:77-86 | a close changes the table as the session model says |
| SessionCalls.ServeWrite | kernel/fs/basefs/fsFile.c:88-116 | a write is accepted by the recorded size, and changes the device, exactly as the session model says |
| SessionCalls.ServeChange | kernel/fs/basefs/fs.c:6-66 | each of the other calls changes the device as the session model says and leaves the table as it was |
| SessionCalls.Serve | kernel/fs/basefs/fsFile.c:6-145 | a whole session, careful or not, leaves device and table in the state of the session model |
| DirectoryRuns.OthersKeepDirectory | kernel/fs/basefs/fs.c:6-66 | a call that touches no extent of a directory keeps its chain and its contents |
| DirectoryRuns.StepKeepsDirectory | kernel/fs/basefs/fsDirectory.c:62-286 | each call short of an overflow keeps the chain well formed, and does to its contents its own addition or removal, or nothing |
| DirectoryRuns.DirectoryOverRuns | kernel/fs/basefs/fsDirectory.c:62-286 | over any run in which a directory is touched only by its additions, short of overflow, and removals, among whatever other calls, its chain stays well formed and its contents are what those additions and removals make of it in order |
| DirectoryRuns.FoldedAdditions | kernel/fs/basefs/fsDirectory.c:62-129 | additions to a packed directory, folded one after the other, append their handles in order |
| DirectoryRuns.AppendOnlyOverRuns | kernel/fs/basefs/fsDirectory.c:62-129 | over any run that only adds to a directory, among creations, deletions and writes of other files, it is an append-only sequence and never overflows |
| Lists.NodesAreUnique | kernel/list.c:90-101 | the head alone determines the nodes of a list |
| Lists.ListAddNode | kernel/list.c:18-41 | adding appends one fresh node, and without memory for it changes nothing |
| Lists.ListRemoveNode | kernel/list.c:43-74 | removing unlinks and frees the first node with the data and no other, and does nothing when there is none |
| Lists.RemovalTakesOne | kernel/list.c:43-74 | removing takes one occurrence out of the data, and nothing when there is none |
| Lists.ListDelete | kernel/list.c:77-88 | deleting a list frees every node once, in order |
| Lists.ListGetSize | kernel/list.c:90-101 | the size is the number of nodes |
| Lists.ListGetNode | kernel/list.c:103-120 | the indexed get returns the node at the index, and null outside the list |
| Lists.ListRun | kernel/list.c:18-74 | after any run of additions and removals the list is well formed, without cycles, and holds the sequence that the run produces |
| Scheduling.Process.Watch | kernel/scheduler.c:311-339 | the timer counts the time slice and asks for shutdown past 100; the deadlines at 1000 and 3000 are never reached |
| Scheduling.Process.Start | kernel/scheduler.c:246-259 | a process that starts is sent the initiate event if it has not begun and no message otherwise, with counter and slice reset and the begun flag set |
| Scheduling.Scheduler.IsrSchedulerTimer | kernel/scheduler.c:303-342 | the timer interrupt touches nothing but the clock and the running process |
| Scheduling.Scheduler.Enter | kernel/scheduler.c:215-243 | taking the mutex moves the turn to the next process of the list and sets up its environment |
| Scheduling.Scheduler.IsrSchedulerMain | kernel/scheduler.c:208-298 | the main interrupt, with any nested interrupts while the process runs, is one step of the specification; it does nothing while the mutex is held |
| Scheduling.Scheduler.RunTask | kernel/scheduler.c:260-267 | interrupts that strike while a process runs are served one after the other, and the turn stays |
| Processes.StartSetsBit | kernel/scheduler.c:246-259 | a start sets bit 0 of the flags and no other bit, and lets the counter and the time slice begin anew |
| Processes.TickSetsBit | kernel/scheduler.c:315-328 | a timer tick counts the slice in sixteen bits, and past 100 sets bit 1 of the flags and no other |
| Processes.InitiatedOnce | kernel/scheduler.c:246-267 | over any run of interrupts from rest a process that has not begun is sent the initiate event on its first run and no message on every later one; one that has begun is never initiated |
| Processes.RunsInItsEnvironment | kernel/scheduler.c:219-267 | the process whose turn it is runs with the access range of its privilege, its own heap range and its own super block, exactly when its counter has passed its priority |
| Processes.AskedPastHundred | kernel/scheduler.c:303-342 | while a process runs, clock and time slice count the timer ticks, and it is asked to shut down, if not before, exactly when it has run for more than 100 of them |
| Fairness.NothingElseRuns | kernel/scheduler.c:215-342 | any number of nested ticks during a run starts no other process and leaves the turn and the process list unchanged but for the runner's time slice and shutdown flag |
| Fairness.TurnRestores | kernel/scheduler.c:275-295 | when the mutex is released the heap range is whole, the super block is zero and the process list is kept |
| Fairness.ModeIsRestoredIff | kernel/scheduler.c:228-292 | the access mode after a turn is the one before it if and only if there was one: a window that begins at 0x4000 becomes that of programs and any other that of the kernel |
| Fairness.RestsBetweenInterrupts | kernel/scheduler.c:208-342 | between interrupts nothing runs and no restriction is left, over every run |
| Fairness.CountsDown | kernel/scheduler.c:219-273 | every main interrupt brings the next run of a process that the turn comes to exactly one nearer |
| Fairness.RunsOnceInPeriod | kernel/scheduler.c:219-273 | within one period a process runs at most once, and exactly when its turn comes up |
| Fairness.ExactlyOncePerPeriod | kernel/scheduler.c:219-273 | the turn goes round all n processes, or, when one behind the first is to run once, round processes 1 to k up to the first such; any stretch of (length of the cycle) * (p + 2) main interrupts runs a process of that cycle with priority p < 255 exactly once, wherever its counter starts |
| Fairness.LastPriorityNeverRuns | kernel/scheduler.c:246-273 | a process of the cycle with priority 255 never runs, since its counter wraps |
| Fairness.VolatileStarvesOthers | kernel/scheduler.c:276-283 | behind a process k > 0 that is to run once, which stays in the list, neither the first process nor a later one ever runs |
| Fairness.StaysFair | kernel/scheduler.c:208-342 | wherever a run of interrupts ends, the turn goes round the same cycle |
| Fairness.FairSharesIff | kernel/scheduler.c:219-283 | from the start of the list, every process of priority below 255 runs exactly once in every n * (p + 2) main interrupts from then on if and only if no process behind the first is to run once |
| Routing.RouterState.Detect | kernel/network/router.c:94-126 | a port counts as detected when one of three looks finds a device; others are reset |
| Routing.RouterState.Announce | kernel/network/router.c:132-146 | every detected device is sent router requests, whatever its kind |
| RouterSends.AnnouncedThrice | kernel/network/router.c:132-146 | each port with a device gets exactly three of them, and no other port any |
| Routing.RouterState.CountOn | kernel/network/router.c:164-180 | the reconnect counters keep their rhythm and never come near their sixteen-bit limit |
| Routing.RouterState.Reconnect | kernel/network/router.c:160-233 | a turn without a packet requests connections only from known routers, and when hot-plugging from new devices of unknown kind |
| RouterTiming.TickedSends | kernel/network/router.c:160-233 | a turn without a packet sends a router request to its own port, if that is due and a router is known there, and when it looks for new devices to each one found of unknown kind, each once; it finds exactly the devices present on ports of unknown kind |
| RouterTiming.PhaseMovesOn | kernel/network/router.c:164-180 | the turns of port 0 go round a cycle of 24611, three intervals of 1001 and eight of 2701, and no other port moves it |
| RouterTiming.CounterCounts | kernel/network/router.c:164-169 | a port is due when 1001 or 2701 of its own turns have passed, by the phase of the cycle, and its turn changes no other counter |
| RouterTiming.LooksEveryCycle | kernel/network/router.c:164-182 | from power on the router looks for new devices exactly on every 24611th turn of port 0, however the turns of the ports are mixed |
| Routing.RouterState.Route | kernel/network/router.c:336-387 | a data packet goes to the first port with the node that it is for, and else to every port with a router but the one it came from |
| RouterSends.DataIsRouted | kernel/network/router.c:245-387 | a data packet goes, unchanged, to the first node with its destination and nowhere else; without one, once to each router but the one it came from; the table stays |
| RouterSends.SentIsReceived | kernel/network/router.c:336-387 | whatever is sent because of a data packet is that packet itself |
| Routing.RouterState.Receive | kernel/network/router.c:245-389 | a received packet changes the table and causes sends as the specification of handshakes, pings and routing says |
| RoutingRuns.TableAfterPacket | kernel/network/router.c:260-311 | by the fields of the packet: a client makes its port a node with the packet's source as address, a router request or reply makes it a router and keeps the address, any other packet changes nothing, and no other port ever changes |
| RouterSends.ControlIsAnswered | kernel/network/router.c:268-330 | by the fields of the packet: a client is acknowledged, a router request is answered, a ping is returned as it is, each on its own port, and nothing else is sent |
| RouterSends.RequestIsUnderstood | kernel/network/router.c:55-90 | the request that a router sends is one that other routers take for a router request |
| Routing.RouterState.Poll | kernel/network/router.c:156-390 | one turn of a port, in that order |
| RouterSends.TurnSends | kernel/network/router.c:156-390 | a turn sends what is due and then what the packet causes, and a port without a device receives nothing |
| RoutingRuns.TurnOfSlot | kernel/network/router.c:156-390 | one turn changes a port's kind and address only through a control packet heard on that port |
| RoutingRuns.TableOfRun | kernel/network/router.c:94-324 | after any run a port is a node with the source of the packet as address if the last control packet heard there was that of a client, a router if it was a router request or reply, and unknown if there was none; a port of known kind has a device |
| RoutingRuns.AddressOfRun | kernel/network/router.c:260-311 | after any run the address of a port is the source of the last client packet heard there, whatever routers followed |
| RouterSends.ClientIsFound | kernel/network/router.c:260-361 | once a client was the last to be heard on a port, a packet for its address that comes in on any port with a device goes, unchanged, to the first port that knows the address, and nowhere else |
| RoutingRuns.AnswerIsSent | kernel/network/router.c:260-324 | the answer to a control packet goes back on its port and depends on no table |
| RoutingRuns.PingNeverEnds | kernel/network/router.c:315-321 | between two routers a ping is answered by itself without end |
| RoutingRuns.ConversationEndsIff | kernel/network/router.c:288-321 | a handshake request is answered once and its reply not at all; a conversation of routers ends if and only if it is not a ping |
| Networks.WaysStayApart | kernel/network/router.c:371-387 | in an acyclic network no router is reached through two different neighbours |
| Networks.NeverReturns | kernel/network/router.c:373-376 | in an acyclic network a packet that is never sent back never comes back |
| Networks.ReachesIffConnected | kernel/network/router.c:371-387 | from a node's port, the routers reached without turning back are exactly those connected by links |
| Delivery.RoutedGoes | kernel/network/router.c:336-387 | a router that knows the node delivers and forwards nothing; any other delivers nothing and forwards once to each neighbour but the sender |
| Delivery.StepScatters | kernel/network/router.c:371-387 | handling one copy keeps the tracks of the packet bound for disjoint parts of the network, none of which has seen it |
| Delivery.StepCovers | kernel/network/router.c:336-387 | handling one copy never loses the way to the node, and delivers when the node's router is reached |
| Delivery.CanBeFinished | kernel/network/router.c:336-387 | forwarding can always be brought to its end |
| Delivery.TracksEnd | kernel/network/router.c:336-387 | in every order of handling no router handles the packet twice, and its tracks end at the node exactly if that can be reached |
| Delivery.CopiesAreThePacket | kernel/network/router.c:336-387 | handling a copy of a packet leaves copies of that same packet on the way and at the node |
| Delivery.FlightFollowsTracks | kernel/network/router.c:336-387 | so over every order of handling the copies follow the tracks, unchanged |
| Delivery.FlightCanEnd | kernel/network/router.c:336-387 | every packet that comes in can be handled to the end |
| Delivery.DeliveredExactlyOnce | kernel/network/router.c:336-387 | in every order of handling no router handles a packet twice, so forwarding stops; every copy on the way is the packet itself; what is delivered is the packet itself, to its node and at most once, and in the end exactly if the node's router can be reached |
| Delivery.DeliveredIffConnected | kernel/network/router.c:336-387 | what is delivered of a packet from a node is exactly that packet, once, at the port of its node, if the two routers are connected, and nothing otherwise |
| Emulator.X4.Compute | kernel/emulation/x4/x4.c:129-217 | the arithmetic and move instructions leave the registers as specified, and fail on registers that do not exist |
| Instructions.AluTurn | kernel/emulation/x4/x4.c:129-217 | they take their operands in order and change nothing but registers and program counter |
| Instructions.AluIsDefinedIff | kernel/emulation/x4/x4.c:129-217 | they are defined exactly on registers that exist and for a division by other than zero |
| Instructions.OtherRegistersStay | kernel/emulation/x4/x4.c:129-217 | they change the one register that they name, or two for an address, and no other |
| Instructions.MovesCopy | kernel/emulation/x4/x4.c:129-145 | a move leaves the value moved, and that of an address both its low bytes |
| Instructions.IncrementsCount | kernel/emulation/x4/x4.c:148-156 | an increment goes to the next byte and from the last to the first, and a decrement undoes it |
| Instructions.SumsAndDifferences | kernel/emulation/x4/x4.c:159-168 | sums and differences are those of the values, in eight bits; a register less itself is zero, and zero changes nothing |
| Instructions.SubtractionUndoesAddition | kernel/emulation/x4/x4.c:159-168 | a subtraction takes back an addition of the same register, and the other way round |
| Instructions.AddingOneMore | kernel/emulation/x4/x4.c:148-162 | adding one more is adding and then incrementing |
| Instructions.ProductsAndQuotients | kernel/emulation/x4/x4.c:171-180 | a product is that of the values, in eight bits, and a quotient q by z of y has q * z <= y < q * z + z |
| Instructions.MultiplyingByOneMore | kernel/emulation/x4/x4.c:159-174 | multiplying by one more is multiplying and then adding |
| Instructions.BitwiseResults | kernel/emulation/x4/x4.c:199-217 | and, or and exclusive or work bit by bit, and a register and its complement add up to 255 |
| Bits.BitByBit | kernel/emulation/x4/x4.c:199-212 | each bit of the result is what the operation makes of that bit of both operands |
| Emulator.X4.Transfer | kernel/emulation/x4/x4.c:93-127 | the memory moves go through the cached bus to the addressed cell of the user range and change nothing else |
| Instructions.LoadsWhatIsStored | kernel/emulation/x4/x4.c:93-127 | a load takes over the byte of the cell 0x4000 behind the address, a store replaces that cell, and neither changes anything else |
| Instructions.UserCells | kernel/emulation/x4/x4.c:93-127 | a program's address names the cell 0x4000 behind it, so as far as the memory reaches none of the first 0x4000 |
| Emulator.X4.MoveStack | kernel/emulation/x4/x4.c:184-196 | a push or pop moves one byte between a register and the top of the stack, and fails on a full or empty one |
| Emulator.X4.Branch | kernel/emulation/x4/x4.c:251-336 | jumps, calls and returns load the program counter and the one return address as specified |
| Instructions.JumpsOrGoesOn | kernel/emulation/x4/x4.c:251-318 | a jump goes to its little-endian address when its flag says so, and otherwise on behind it, and changes nothing else |
| Instructions.CallAndReturn | kernel/emulation/x4/x4.c:320-336 | a call remembers where to go on, and a return goes there and forgets it |
| Emulator.X4.Execute | kernel/emulation/x4/x4.c:76-376 | one turn of the fetch, decode and execute loop is one step of the specification, for every program |
| Instructions.GoesOn | kernel/emulation/x4/x4.c:76-376 | every instruction but jumps, calls and returns goes on behind its operands, and only the exit interrupt ends the program |
| Instructions.InterruptTakesOver | kernel/emulation/x4/x4.c:352-370 | any other interrupt takes over what its service leaves in registers and memory |
| Emulator.X4.EmulateX4 | kernel/emulation/x4/x4.c:58-386 | any number of turns is the run of the specification from the reset state |
| Emulator.Idles | kernel/emulation/x4/x4.c:76 | once the program counter has left the program, or the program has exited, nothing changes any more |
| EmulatorRuns.StepKeepsStack | kernel/emulation/x4/x4.c:184-196 | one turn writes the stack at most where the next byte goes |
| EmulatorRuns.LowerStackIsKept | kernel/emulation/x4/x4.c:76-376 | a run segment that never pops below its base leaves every byte of the stack below it as it was |
| EmulatorRuns.PushesSave | kernel/emulation/x4/x4.c:191-196 | a line of pushes stacks the registers and changes none |
| EmulatorRuns.PopsRestore | kernel/emulation/x4/x4.c:185-189 | a line of pops takes back the registers that pushes left there |
| EmulatorRuns.SavedRegistersComeBack | kernel/emulation/x4/x4.c:76-196 | registers pushed come back with the pops in reverse order after any segment that ends where it began on the stack, and stack pointer and lower stack are as before |
| EmulatorRuns.JumpsAsCompared | kernel/emulation/x4/x4.c:219-318 | a comparison and the conditional jump behind it take the branch that the two values call for; the jump commented "less than" is also taken on equality |
| EmulatorRuns.ReturnFollowsCall | kernel/emulation/x4/x4.c:320-336 | a return goes behind the last call, if nothing was called in between |
| EmulatorRuns.SecondReturnRestarts | kernel/emulation/x4/x4.c:320-336 | since there is one return address only, the outer return of nested calls starts the program over |

## Left out

- DirectoryUpdates.FsDirectoryAddFile: requires room for the first extent of a directory; without it the code takes the device header for the extent. It requires the guard, as it allocates.
- DirectoryUpdates.FsDirectoryRemoveFile: requires that the handle found is that of a live file outside the directory; the code frees whatever the handle points to.
- DirectoryFiles.FsDirectoryFindByName: requires that entries are handles of sectors of the device, so that their names can be read.
- Files.FsFileOpen: requires a free slot, since with none the code reads past the table, and an address other than 0, at which the slot would count as free.
- Files.FsFileClose: does not cover index 16, where the code reads past the table.
- Files.FsFileRead: does not cover index 16, where the code reads past the table, nor an accepted read that runs past the partition.
- Files.FsFileWrite: does not cover index 16, where the code reads past the table, nor an accepted write that runs past the partition.
- SessionCalls.Serve: has the preconditions of the calls that it makes; additions without room for the extent and removals of a handle that the directory does not hold are no calls of a session.
- Files.MayTransfer: does not cover index 16, where the code reads past the table.
- Allocator.FsAllocate: requires the guard; the code searches any partition, and without the guard can report a run that is not its own, see `FirstFit.SearchIsFirstFitIff`.
- Files.FsFileCreate: requires the guard, as it allocates.
- DirectoryUpdates.FsDirectoryCreate: requires the guard, as it allocates.
- DirectoryUpdates.FsDirectoryExtentCreate: requires the guard, as it allocates.
- Format.FsDeviceFormat: requires the guard of the partition that it makes, as it allocates the root directory.
- Files.OpenFiles.constructor: the two global tables are sequences that the methods reassign, not arrays.
- Lists.ListGetSize: the counter is unbounded, where the code counts in an `int`; a list of that length does not fit the data memory.
- Lists.ListDelete: the nodes freed are returned, since memory that is given back cannot be modelled.
- Emulator.X4.EmulateX4: stops after the given number of turns, where the loop runs until the program ends; the access mode, which the exit interrupt does not restore, is not modelled.
- Emulator.X4.Execute: what C leaves undefined ends the run; the segmentation check never fires, since programs get the range up to 0xffffffff.
- Scheduling.Scheduler.IsrSchedulerMain: the process list is given, since the bodies of task creation and destruction are commented out.
- Scheduling.Scheduler.RunTask: a process that edits its own descriptor or the process list while it runs is not covered.
- Routing.RouterState.Poll: clearing a port's receive buffer is not modelled; a packet that it drops counts as one that never came in.
- Port and latch sequences, wait states and delays of the bus, and raw accesses that alias the cached window.
- The bus of the RetroAVRx4 board, which the selected board does not compile.
- The flag bits and the plain getters and setters of header fields, which `Runs.Op.SetHeader` covers as edits that keep markers and sizes.
- Packet framing, device polling, the packet server and the net command.
- Console, graphics, keyboard, sound, the assembler, the editor, driver loading, string and array classes.
- Memory allocation for processes, and virtual reads and writes, whose bodies are commented out.
- Interrupt services of the interpreter, and its CLI and STI beyond moving on.
