# Nt32Pkg drivers

This project models the state-changing logic of six components of the Windows-hosted platform (Nt32Pkg), and proves
what callers rely on. `dafny verify dfyconfig.toml` checks everything.

| files | component |
|---|---|
| FvHeader, BlockMap, FvbAttributes, Fvb, FvbLayout, FvbInit, FvbPlatform, FvbEmptyBlocks, FvbRestart, FvbAccepted, FvbDriver | Firmware Volume Block service |
| GopPixels, GopScreen, GopMeaning | Graphics Output: Blt and SetMode |
| FfsVolume, FfsWalker, FfsMeaning, FfsTwoCores, FfsEndless | firmware file system search of the SEC phase |
| TimerProtocol, TimerRequests, TimerReports, TimerRuns | timer callback against the main thread |
| Keys, KeyQueues, HotKeys, KeyInput, KeyInterleaving | keyboard queues and key notifications |
| SerialFifo, SerialAttributes, SerialIo | serial loopback FIFO and attributes |
| BoundedQueues | queue histories and rings, for the keyboard and the serial port |
| Wrappers, EfiStatus, Bytes | options, status codes, little-endian fields, copies |

**Form.** Code that updates state in place is a class (`Driver`, `Gop`, `KeyQueue`, `GopInput`, `Fifo`, `SerialPort`)
or a method with a loop. Each method is proved against a pure function of the old state, and the lemmas about whole
runs are about those functions. The timer is a step relation with one access to shared state per step.

**Volumes.** The flash is one byte array. A volume is a private header copy, a base and a block count. The block map
is run-length coded in the code and a flat list of block sizes in the specification. Map entries span less than 2^32
bytes, `StartingLba + NumOfLba` and `NumBytes + BlockOffset` do not wrap, and a header is readable over the length
that it claims. `Environment` states what initialisation takes for granted: firmware-volume HOBs that do not overlap,
and sound headers.

**Screen.** A pixel of the image is found in the frame buffer from the bottom row up. Products of rows and strides are
added up row by row (`GopPixels.RowsIsProduct`). Copies have the meaning of a
move. A video-to-video copy does not check its source rectangle, so that it lies on the screen is a precondition, as
are buffers that are large enough.

**Files.** A search that meets a file or a deleted file of size zero before its first match does not end, and neither
does one for a section that meets a section of size zero. The preconditions exclude just that
(`FfsVolume.SearchEndsIff`, `FfsVolume.SectionSearchEndsIff`; `FfsEndless` is such a volume).

**Timer.** The state records what has happened (`History`), which no step of the driver reads. A callback runs only after
a timer event was created; from then on it may run at any time, also after the event was killed.

**Keyboard.** DeleteQ removes a partial keystroke and still fails without partial key support, so a drain stops
there; this is what the model does. The operating system, the boot services and the memory allocator appear as
parameters.

## Where the code differs from its comments

- EraseBlocks is meant to check all ranges before it erases. The count that it checks against also includes blocks
  of size zero, which the address walk does not reach, so an erase can fail half way: exactly when the list begins in
  reach of the walk and leaves it (`Fvb.EraseListIsAtomicIff`, `FvbEmptyBlocks.AcceptedVolumeErasesPartly`).
- SetMode reports a device error after it has changed the resolution, and keeps the old fill line
  (`GopScreen.ReadyIff`, `GopScreen.FillLineTooShort`). WinNtGopStartWindow reports only whether it could create its
  event; the window and its frame buffer are made in either case, and the next call makes them again.
- The timer handler is said to be told the time since its last call. It is told the time since the stored tick, which
  dropped samples and restarts store as well (`TimerReports.CallReportsSinceCallIff`,
  `TimerRuns.DroppedTimeIsNotReported`).
- SetTimerPeriod stores its tick outside of the critical section, and a sample just before the store is reported again
  (`TimerReports.TooMuchIsReportedIff`, `TimerRuns.TimeIsReportedTwice`).
- The comment of SecFfsFindPeiCore suggests a search. It looks at the first PEI core file only
  (`FfsTwoCores.SecondCoreIsIgnored`).
- RegisterKeyNotify returns the existing entry for a registration that it covers, but not for one that covers it, so a
  keystroke can call one function twice (`HotKeys.RunCallsOnceIff`, `HotKeys.CalledTwice`).

## Model

| member | source | states |
|---|---|---|
| FvbDriver.WalkBlockMap | Nt32Pkg/FvbServicesRuntimeDxe/FWBlockService.c:350-390 | The walk over the run-length map finds a block exactly when the flat list of block sizes has one; its address is the base plus the sum of all earlier sizes, and the count is what is left of its run |
| BlockMap.BlocksDisjoint | Nt32Pkg/FvbServicesRuntimeDxe/FWBlockService.c:350-390 | A byte lies in at most one block, and every block lies inside the volume |
| BlockMap.BlocksTile | Nt32Pkg/FvbServicesRuntimeDxe/FWBlockService.c:350-390 | Every byte below the sum of the sizes lies in some block |
| BlockMap.RunLeftSameSize | Nt32Pkg/FvbServicesRuntimeDxe/FWBlockService.c:378-385 | The blocks that the returned count covers exist and all have the returned size |
| BlockMap.RunLeftEndsEntry | Nt32Pkg/FvbServicesRuntimeDxe/FWBlockService.c:378-385 | The blocks that the returned count covers end where their map entry ends |
| BlockMap.WalkWithinCount | Nt32Pkg/FvbServicesRuntimeDxe/FWBlockService.c:1280-1293 | The block count of initialisation is never below what the walk covers; they are equal if and only if no entry before the terminator gives its blocks the size zero |
| FvbDriver.CheckRequest | Nt32Pkg/FvbServicesRuntimeDxe/FWBlockService.c:678-750 | The sequence of tests accepts exactly the requests that the rule in terms of the resulting word accepts, with the same error otherwise |
| FvbDriver.ReplaceStatus | Nt32Pkg/FvbServicesRuntimeDxe/FWBlockService.c:756-757 | The new word has the status bits of the request and every other bit of the old word |
| FvbAttributes.AcceptedRequests | Nt32Pkg/FvbServicesRuntimeDxe/FWBlockService.c:678-758 | A request succeeds if and only if it keeps the fixed bits, keeps the status bits of a locked volume, and is itself a word whose status bits agree with its capability bits; then its status bits are the new ones |
| FvbAttributes.AcceptedBits | Nt32Pkg/FvbServicesRuntimeDxe/FWBlockService.c:678-750 | The same in the bits of the word: read status needs bit 0 or 1, write status bit 3 or 4, the lock bit 6; on a locked volume the status bits stay, and everywhere the other bits |
| FvbAttributes.RunKeepsCapabilities | Nt32Pkg/FvbServicesRuntimeDxe/FWBlockService.c:678-758 | Over every run of requests only the three status bits can change, and agreement of status and capability bits is kept |
| FvbAttributes.LockIsPermanent | Nt32Pkg/FvbServicesRuntimeDxe/FWBlockService.c:705-714 | With the lock bit set no run of requests changes any bit of the word |
| FvbAttributes.PlatformIsFixed | Nt32Pkg/FvbServicesRuntimeDxe/FvbInfo.c:73-79 | No run of requests changes the attribute word of the platform table |
| FvbPlatform.PlatformVolume | Nt32Pkg/FvbServicesRuntimeDxe/FvbInfo.c:60-97 | A table header describes a sound volume whose blocks fill its length exactly, without empty blocks |
| FvbPlatform.PlatformVolumesFixed | Nt32Pkg/FvbServicesRuntimeDxe/FvbInfo.c:60-97 | After initialisation, no run of calls on any volumes changes the record of a volume whose header came from the table |
| Fvb.TransferOutcome | Nt32Pkg/FvbServicesRuntimeDxe/FWBlockService.c:450-476 | A transfer that moves bytes is in an existing block and ends inside it |
| Fvb.TransferStatus | Nt32Pkg/FvbServicesRuntimeDxe/FWBlockService.c:450-476 | Exactly when a transfer has which status |
| Fvb.TransferIsFull | Nt32Pkg/FvbServicesRuntimeDxe/FWBlockService.c:465-476 | A transfer moves all the bytes, or stops exactly at the end of its block and reports it |
| Fvb.WriteThenRead | Nt32Pkg/FvbServicesRuntimeDxe/FWBlockService.c:536-563 | After an allowed write, and any further calls that neither write, erase nor re-attribute the volume, a read with the same arguments has the same status and truncation and returns exactly the accepted bytes; the record, with the geometry, is unchanged wherever the write went, block 0 included |
| Fvb.WriteTouchesOnly | Nt32Pkg/FvbServicesRuntimeDxe/FWBlockService.c:544-563 | A write changes no byte of the flash but the ones that it moves, inside its volume too, and these become those of its data |
| Fvb.OtherReadsKept | Nt32Pkg/FvbServicesRuntimeDxe/FWBlockService.c:544-563 | A read of any volume whose bytes are not among the written ones returns what it returned before |
| Fvb.EraseIsAtomic | Nt32Pkg/FvbServicesRuntimeDxe/FWBlockService.c:942-985 | Without empty blocks (or with writing off) an erase is all or nothing; without empty blocks the second pass never fails with INVALID_PARAMETER |
| Fvb.EraseIsAtomicIff | Nt32Pkg/FvbServicesRuntimeDxe/FWBlockService.c:942-985 | Over all flash contents and lists: an erase is all or nothing if and only if the map has no empty blocks, or writing is off, or the walk reaches no block |
| Fvb.EraseListIsAtomicIff | Nt32Pkg/FvbServicesRuntimeDxe/FWBlockService.c:942-985 | For one list that the first pass accepts: it is erased all or nothing for every flash content if and only if the walk reaches all its blocks or not even the first one |
| Fvb.PartialErase | Nt32Pkg/FvbServicesRuntimeDxe/FWBlockService.c:942-985 | For every other accepted list there is a flash that is changed although the call fails with INVALID_PARAMETER |
| Fvb.EraseStatus | Nt32Pkg/FvbServicesRuntimeDxe/FWBlockService.c:942-985 | The status of an erase where no entry has empty blocks, in terms of the ranges alone |
| Fvb.ErasedBits | Nt32Pkg/FvbServicesRuntimeDxe/FWBlockService.c:605-623 | Every bit of an erased byte is the polarity bit |
| FvbEmptyBlocks.AcceptedVolumeErasesPartly | Nt32Pkg/FvbServicesRuntimeDxe/FWBlockService.c:1230-1293 | A volume image, byte for byte, that initialisation accepts and in which erasing the two blocks that it counted fails after the first is gone |
| Fvb.RunKeepsGeometry | Nt32Pkg/FvbServicesRuntimeDxe/FWBlockService.c:1274-1275 | Over every run of calls the base, block map and block count of a volume stay, and its attributes depend only on its own requests |
| Fvb.RunKeepsBytes | Nt32Pkg/FvbServicesRuntimeDxe/FWBlockService.c:544-561 | A run that never writes or erases a volume keeps all its bytes, whatever it does to others |
| Fvb.FrozenVolume | Nt32Pkg/FvbServicesRuntimeDxe/FWBlockService.c:605-625 | A volume with the lock bit set and the write-status bit clear keeps its record and all its bytes over every run of calls on any volumes |
| FvbLayout.RecordsApart | Nt32Pkg/FvbServicesRuntimeDxe/FWBlockService.c:204-212 | Instance records do not overlap and end inside the pool |
| FvbLayout.OffsetIsSum | Nt32Pkg/FvbServicesRuntimeDxe/FWBlockService.c:204-212 | A record lies behind the headers of all records before it and 24 bytes for each |
| FvbInit.GetFvbInfo | Nt32Pkg/FvbServicesRuntimeDxe/FvbInfo.c:216-232 | The search succeeds if and only if an entry has the length, and then delivers the first one |
| FvbAccepted.FirstEntryFound | Nt32Pkg/FvbServicesRuntimeDxe/FvbInfo.c:216-232 | The search delivers the first entry of a length |
| FvbAccepted.AcceptedIff | Nt32Pkg/FvbServicesRuntimeDxe/FWBlockService.c:1191-1207 | A HOB is a volume if and only if it is flash and its header is valid or the table has one for its length |
| FvbAccepted.ValidHeaderIff | Nt32Pkg/FvbServicesRuntimeDxe/FWBlockService.c:1086-1125 | What a valid header needs, byte by byte |
| FvbAccepted.AcceptedInOrder | Nt32Pkg/FvbServicesRuntimeDxe/FWBlockService.c:1303-1304 | The instance number of a volume is the number of volumes before it |
| FvbAccepted.ValidVolumeKept | Nt32Pkg/FvbServicesRuntimeDxe/FWBlockService.c:1250-1274 | A HOB with a valid header keeps all its bytes and gets the record decoded from them, whatever the table holds |
| FvbAccepted.InvalidVolumeHealed | Nt32Pkg/FvbServicesRuntimeDxe/FWBlockService.c:1250-1274 | A HOB without one gets the header of the table, in the flash and in its record |
| FvbInit.WriteBackFrame | Nt32Pkg/FvbServicesRuntimeDxe/FWBlockService.c:1264-1268 | Initialisation changes no byte outside the headers that it writes back |
| FvbInit.WriteBackHeals | Nt32Pkg/FvbServicesRuntimeDxe/FWBlockService.c:1264-1268 | After initialisation every header from the table stands in the flash as in the table |
| FvbInit.InitialStateValid | Nt32Pkg/FvbServicesRuntimeDxe/FWBlockService.c:1230-1375 | The records of the accepted HOBs are volumes inside the flash that do not overlap |
| FvbRestart.RestartIsStable | Nt32Pkg/FvbServicesRuntimeDxe/FWBlockService.c:1230-1375 | Initialising again, in the flash that initialisation leaves, gives the same records and changes no byte, whether or not the table headers are valid volume headers |
| FvbDriver.Driver.MeasureRecords | Nt32Pkg/FvbServicesRuntimeDxe/FWBlockService.c:1176-1211 | The first pass measures exactly the records of the accepted HOBs |
| FvbDriver.Driver.Initialize | Nt32Pkg/FvbServicesRuntimeDxe/FWBlockService.c:1176-1375 | The second pass fills exactly the pool that the first one measured, with one record for each accepted HOB in order, although it changes the flash on the way; the flash is the old one with the table headers written back |
| FvbDriver.Driver.GetFvbInstance | Nt32Pkg/FvbServicesRuntimeDxe/FWBlockService.c:198-216 | The walk over the records succeeds exactly for installed instances and reaches the record of that HOB |
| FvbDriver.Driver.GetLbaAddress | Nt32Pkg/FvbServicesRuntimeDxe/FWBlockService.c:301-390 | The address, size and count of a block of an instance, or INVALID_PARAMETER |
| FvbDriver.Driver.ReadBlock | Nt32Pkg/FvbServicesRuntimeDxe/FWBlockService.c:394-477 | Status, moved count and buffer are those of the flat model, bytes behind the moved ones stay, and the state is unchanged |
| FvbDriver.Driver.WriteBlock | Nt32Pkg/FvbServicesRuntimeDxe/FWBlockService.c:480-564 | Status and moved count are those of the flat model, and the whole new state is the step of the model |
| FvbDriver.Driver.EraseOneBlock | Nt32Pkg/FvbServicesRuntimeDxe/FWBlockService.c:567-628 | The loop body of an erase is the model's erase of one block |
| FvbDriver.Driver.SetVolumeAttributes | Nt32Pkg/FvbServicesRuntimeDxe/FWBlockService.c:631-763 | The record in the pool changes as the attribute rule says, and no other record |
| FvbDriver.Driver.EraseBlocks | Nt32Pkg/FvbServicesRuntimeDxe/FWBlockService.c:896-987 | Both passes over the argument list are the step of the model, with its status |
| GopScreen.Call.ImageRow | Nt32Pkg/WinNtGopDxe/WinNtGopScreen.c:553-578 | With the row order of the loop, the next source row is always a row of the screen as it was at the call, however the rectangles overlap |
| GopPixels.PaintedUnique | Nt32Pkg/WinNtGopDxe/WinNtGopScreen.c:529-579 | The rectangle and the image determine the whole frame buffer afterwards |
| GopPixels.StrideIff | Nt32Pkg/WinNtGopDxe/WinNtGopScreen.c:492-526 | A buffer gives back every image stored in it if and only if its stride is at least a row, or it has one row |
| GopPixels.StoreRowsFrame | Nt32Pkg/WinNtGopDxe/WinNtGopScreen.c:522-526 | Reading the screen changes no byte of the buffer outside the rows of the rectangle |
| GopScreen.RoundTrip | Nt32Pkg/WinNtGopDxe/WinNtGopScreen.c:492-578 | Painting a rectangle from a buffer and reading it into any buffer of the same layout gives the original pixels for every stride; into the same buffer it leaves every byte |
| GopScreen.SameLayout | Nt32Pkg/WinNtGopDxe/WinNtGopScreen.c:488-537 | The Blt call that reads a rectangle back is accepted exactly when the one that painted it is, and has the same rectangle and layout |
| GopMeaning.AcceptedIff | Nt32Pkg/WinNtGopDxe/WinNtGopScreen.c:480-537 | A call is accepted if and only if it has an operation and an area, and the last pixel of the checked rectangle is on the screen |
| GopMeaning.PaintedSlots | Nt32Pkg/WinNtGopDxe/WinNtGopScreen.c:549-579 | Every pixel of a painted image is in its slot, row y of the screen at row v - 1 - y of the frame buffer, and all other slots stay |
| GopMeaning.FillShows | Nt32Pkg/WinNtGopDxe/WinNtGopScreen.c:546-551 | A fill shows the first pixel of the buffer |
| GopMeaning.CopyShows | Nt32Pkg/WinNtGopDxe/WinNtGopScreen.c:569-572 | A copy inside the screen shows the old slots of the source rectangle |
| GopMeaning.BufferShows | Nt32Pkg/WinNtGopDxe/WinNtGopScreen.c:564-567 | BUFFER_TO_VIDEO shows pixel (SourceX + k, SourceY + r) of the image that the buffer holds |
| GopMeaning.ScreenReads | Nt32Pkg/WinNtGopDxe/WinNtGopScreen.c:522-526 | VIDEO_TO_BUFFER replaces exactly the pixels of the destination rectangle of the image that the buffer holds |
| GopMeaning.ImageBytes | Nt32Pkg/WinNtGopDxe/WinNtGopScreen.c:492-494 | Where the bytes of a pixel of that image are |
| GopScreen.RunKeepsReady | Nt32Pkg/WinNtGopDxe/WinNtGopScreen.c:277-412 | Over every run of SetMode calls without a device error, frame buffer and fill line fit the resolution once one call has succeeded |
| GopScreen.ReadyIff | Nt32Pkg/WinNtGopDxe/WinNtGopScreen.c:277-412 | After any run of SetMode calls with any errors, frame buffer and fill line fit the resolution if and only if some call has succeeded and the last success was at least as wide as the last supported mode |
| GopScreen.RunResolution | Nt32Pkg/WinNtGopDxe/WinNtGopScreen.c:298-302 | After any run the resolution and the frame buffer are those of the last supported mode that was asked for |
| GopScreen.StartedIff | Nt32Pkg/WinNtGopDxe/WinNtGopScreen.c:304-316 | A window is still to be started if and only if no call for a supported mode could create its event |
| GopScreen.ModeStatusIff | Nt32Pkg/WinNtGopDxe/WinNtGopScreen.c:294-389 | Exactly when SetMode has which status |
| GopScreen.FillLineTooShort | Nt32Pkg/WinNtGopDxe/WinNtGopScreen.c:386-389 | A failed switch from 640x480 to 1280x1024 leaves a fill line that is too short |
| GopScreen.Gop.SetMode | Nt32Pkg/WinNtGopDxe/WinNtGopScreen.c:277-412 | Sizes and status follow the mode rules; success clears every pixel of a new screen |
| GopScreen.Gop.Blt | Nt32Pkg/WinNtGopDxe/WinNtGopScreen.c:452-610 | Status is decided by the checked rectangle; painting operations leave the old screen with exactly the destination replaced by the image as of the call; reading stores exactly the rows of the rectangle, in order (`GopPixels.StoreRowsFrame`), and leaves the screen |
| GopScreen.Gop.PaintScreen | Nt32Pkg/WinNtGopDxe/WinNtGopScreen.c:553-579 | The row loop paints exactly the image that was there before the first row |
| GopScreen.Gop.ScreenToBuffer | Nt32Pkg/WinNtGopDxe/WinNtGopScreen.c:510-526 | The row loop stores exactly the rows of the rectangle into the buffer |
| FfsWalker.GetFileState | Nt32Pkg/Sec/FwVol.c:26-61 | The result is the highest set bit of the state byte under the erase polarity, or zero |
| FfsWalker.CalculateHeaderChecksum | Nt32Pkg/Sec/FwVol.c:64-107 | The result is the sum of the header bytes without the file checksum and the state |
| FfsWalker.FindNextFile | Nt32Pkg/Sec/FwVol.c:110-215 | Every search that ends finds the first file of the type in the list of all files from its start, or leaves the in-out pointer alone |
| FfsVolume.SearchEndsIff | Nt32Pkg/Sec/FwVol.c:169-215 | A search ends if and only if it meets no file and no deleted file of size zero before its first match |
| FfsEndless.SearchDoesNotEnd | Nt32Pkg/Sec/FwVol.c:202-207 | A volume image, byte for byte, in which a search for whatever type stays at its first item for ever |
| FfsVolume.EnumerationIsFilter | Nt32Pkg/Sec/FwVol.c:145-215 | Repeated searches that end find exactly the files of the type, in order; with the type for all files, all of them |
| FfsVolume.EnumerationEndsIff | Nt32Pkg/Sec/FwVol.c:145-215 | Repeated searches end, for whatever type, if and only if they meet no file and no deleted file of size zero |
| FfsVolume.FilesAreVisited | Nt32Pkg/Sec/FwVol.c:153-211 | The list holds exactly the places that the walk comes to whose state is data-valid or marked-for-update and whose checksum is right |
| FfsVolume.FilesAligned | Nt32Pkg/Sec/FwVol.c:170-196 | File offsets stay congruent to the start modulo 8, and each file ends before the next one begins |
| FfsMeaning.ItemMeaning | Nt32Pkg/Sec/FwVol.c:173-212 | What the bytes of a header mean: the highest state bit, the checksum, and how far the walk goes on |
| FfsMeaning.SearchMeaning | Nt32Pkg/Sec/FwVol.c:155-165 | Where a search begins, and which files it wants |
| FfsMeaning.PolarityIsRelative | Nt32Pkg/Sec/FwVol.c:51-53 | The other erase polarity with complemented states gives the same files, the same result of every search, and the same end |
| FfsMeaning.ErasedEndsWalk | Nt32Pkg/Sec/FwVol.c:209-210 | An erased header ends the walk, for both polarities |
| FfsMeaning.ErasedBlockEndsWalk | Nt32Pkg/FvbServicesRuntimeDxe/FWBlockService.c:605-623 | So does one in a block that the block service has erased |
| FfsMeaning.ChecksumIgnores | Nt32Pkg/Sec/FwVol.c:80-106 | The header checksum does not depend on the file checksum, the state, or anything outside of the header |
| FfsMeaning.ChecksumCounts | Nt32Pkg/Sec/FwVol.c:80-106 | Every other byte of the header counts in it |
| FfsWalker.FindSectionData | Nt32Pkg/Sec/FwVol.c:219-276 | Every search that ends finds the data of the first section of the type |
| FfsVolume.SectionSearchEndsIff | Nt32Pkg/Sec/FwVol.c:245-275 | A search for a section ends if and only if it meets no section of size zero before its first match |
| FfsMeaning.SectionMeaning | Nt32Pkg/Sec/FwVol.c:252-273 | Where sections begin, and where their size, type and data are |
| FfsMeaning.SectionsChain | Nt32Pkg/Sec/FwVol.c:268-272 | Each section begins where the one before it ends, rounded up to four bytes |
| FfsWalker.FindPeiCore | Nt32Pkg/Sec/FwVol.c:279-314 | Only the first PEI core file is looked at; a file without the section ends the search |
| FfsTwoCores.SecondCoreIsIgnored | Nt32Pkg/Sec/FwVol.c:300-311 | A volume image, byte for byte, whose second PEI core file has the PE32 section that the first one lacks |
| TimerProtocol.StepKeepsInv | Nt32Pkg/TimerDxe/Timer.c:115-205 | Every step of callback, main thread or clock keeps the invariant |
| TimerProtocol.SuspensionIsGuarded | Nt32Pkg/TimerDxe/Timer.c:115-205 | In every reachable state main is suspended at most once, only while the callback owns the critical section and never while it owns it itself; suspends and resumes balance when a callback has ended |
| TimerProtocol.InterruptsGateSample | Nt32Pkg/TimerDxe/Timer.c:139-169 | When the tick is sampled the interrupt flag is set, main is suspended, and the callback owns the section |
| TimerProtocol.SampleMeasures | Nt32Pkg/TimerDxe/Timer.c:167-169 | The delta of a sample is the time since the stored tick was taken, modulo 2^32, in every reachable state |
| TimerProtocol.CallsAreCurrent | Nt32Pkg/TimerDxe/Timer.c:174-193 | Only the handler registered at the moment of the call is called, with less than a second |
| TimerProtocol.RegistrationAlternates | Nt32Pkg/TimerDxe/Timer.c:302-323 | Handlers are registered and unregistered in turn |
| TimerRequests.TakenUpIff | Nt32Pkg/TimerDxe/Timer.c:305-311 | RegisterHandler is turned down exactly when a handler is registered already, or none is to be unregistered |
| TimerRequests.CallsFollowRequest | Nt32Pkg/TimerDxe/Timer.c:317-323 | In every run, from the store of a request until the next one is taken up, every call is one of the requested handler, and none after RegisterHandler(NULL) |
| TimerRequests.PeriodRequest | Nt32Pkg/TimerDxe/Timer.c:373-406 | Zero cancels, a valid period restarts, and any other period is ignored |
| TimerRequests.PeriodIsStored | Nt32Pkg/TimerDxe/Timer.c:377-431 | When SetTimerPeriod returns, the period is stored and the cancel flag is as asked |
| TimerRequests.TimerIdIsStored | Nt32Pkg/TimerDxe/Timer.c:391-429 | The timer event is forgotten by a cancellation and by a callback that ends it, and known after a start |
| TimerRequests.CancelledCallbacksSuspendNobody | Nt32Pkg/TimerDxe/Timer.c:115-115 | A callback that begins while the cancel flag is set does not suspend main |
| TimerRequests.CancelledCallbacksAreSilent | Nt32Pkg/TimerDxe/Timer.c:131-137 | A callback that has not suspended main when the flag is set calls no handler |
| TimerRequests.CancelledTimerIsSilent | Nt32Pkg/TimerDxe/Timer.c:377-381 | After SetTimerPeriod(0) no handler is called until a restart, unless a callback was waiting for interrupts |
| TimerRequests.OnlyWaitersAreLeft | Nt32Pkg/TimerDxe/Timer.c:139-169 | The only other callbacks at that point are those that wait for interrupts |
| TimerRuns.CalledAfterCancel | Nt32Pkg/TimerDxe/Timer.c:139-169 | A run in which such a callback calls its handler after the cancellation |
| TimerRequests.WaitsForInterrupts | Nt32Pkg/TimerDxe/Timer.c:150-154 | While interrupts stay disabled a waiting callback stays in its loop, outside of the critical section |
| TimerProtocol.NoDeadlock | Nt32Pkg/TimerDxe/Timer.c:115-205 | In every reachable state main, or a callback that has begun, can step |
| TimerProtocol.SuspensionIsBounded | Nt32Pkg/TimerDxe/Timer.c:131-201 | Main is never suspended for more than ten steps of the callback |
| TimerReports.TimeIsConserved | Nt32Pkg/TimerDxe/Timer.c:167-191 | In every reachable state, what handlers have been told of is the time from the first stored tick to the last one, less the pending and the lost time, and with the time that restarts have given back |
| TimerReports.TooMuchIsReportedIff | Nt32Pkg/TimerDxe/Timer.c:178-191 | Handlers have been told of more than has passed since the first start if and only if restarts have given back more than is lost, pending or not sampled |
| TimerReports.GivenBackIff | Nt32Pkg/TimerDxe/Timer.c:418-421 | Time is given back by exactly the restarts with a sample between their read and their store of the tick |
| TimerReports.LostIff | Nt32Pkg/TimerDxe/Timer.c:167-191 | Time is lost by exactly the samples after which the tick has gone round, the dropped samples, and the restarts that skip time |
| TimerReports.NoTimeIsInvented | Nt32Pkg/TimerDxe/Timer.c:178-191 | Without such restarts, handlers are told of no more time than has passed since the first start |
| TimerRuns.TimeIsReportedTwice | Nt32Pkg/TimerDxe/Timer.c:418-421 | A run of the started driver in which handlers are told of more |
| TimerReports.CallReportsSinceCallIff | Nt32Pkg/TimerDxe/Timer.c:178-191 | A call reports the time since the call before if and only if that is less than 2^32 ms and no dropped sample or restart has stored a tick in between, or the last one stored the same tick again |
| TimerReports.QuietCallsIff | Nt32Pkg/TimerDxe/Timer.c:168-193 | Unless the same tick was stored again: it does if and only if no sample in between was dropped and no restart stored a tick |
| TimerReports.StoresAreRecorded | Nt32Pkg/TimerDxe/Timer.c:168-191 | The record that these two speak of holds exactly the ticks of dropped samples and restarts since the last call |
| TimerRuns.DroppedTimeIsNotReported | Nt32Pkg/TimerDxe/Timer.c:171-174 | A run in which a call reports 300 ms although 1800 ms have passed since the call before, because a sample in between was dropped |
| BoundedQueues.RunHistory | Nt32Pkg/WinNtGopDxe/WinNtGopInput.c:94-148 | Under every interleaving of adding and removing, removed and stored items are the accepted ones in order, and the capacity is kept; this holds of both keyboard queues (`KeyQueues.PutOne`, `KeyQueues.TakeOne`) and of the serial FIFO |
| BoundedQueues.PutsKeepStored | Nt32Pkg/WinNtGopDxe/WinNtGopInput.c:94-106 | The producer leaves every stored item where it is |
| BoundedQueues.StepIsGreedy | Nt32Pkg/WinNtSerialIoDxe/WinNtSerialIo.c:1426-1433 | A write stores everything or fills the queue, and a read delivers everything asked for or empties it |
| KeyQueues.KeyQueue.AddQ | Nt32Pkg/WinNtGopDxe/WinNtGopInput.c:86-106 | Appends unless 255 keys are stored, and never writes the front slot of a queue that is not empty |
| KeyQueues.KeyQueue.DeleteQ | Nt32Pkg/WinNtGopDxe/WinNtGopInput.c:119-148 | Removes the first key; without support a partial one is lost with NOT_READY |
| KeyQueues.KeyQueue.Drain | Nt32Pkg/WinNtGopDxe/WinNtGopInput.c:432-435 | A drain loop leaves what is behind the first partial key without support, and nothing with it |
| KeyQueues.DrainEmptiesIff | Nt32Pkg/WinNtGopDxe/WinNtGopInput.c:432-435 | A drain empties the queue if and only if partial keys are supported or none comes before the last key |
| KeyQueues.DrainOutcome | Nt32Pkg/WinNtGopDxe/WinNtGopInput.c:267-269 | What a drain delivers, the partial key that ends it, and what it leaves make up the queue |
| KeyInterleaving.DrainDeliversPrefix | Nt32Pkg/WinNtGopDxe/WinNtGopInput.c:267-269 | With any keystrokes added before each deletion, a drain delivers a prefix of those stored or added; it ends at an empty queue or behind an unsupported partial keystroke, and keeps the rest |
| KeyInterleaving.DrainUndisturbed | Nt32Pkg/WinNtGopDxe/WinNtGopInput.c:432-435 | Without additions this loop is the drain that the methods are proved against |
| Keys.HeldKeysAreExact | Nt32Pkg/WinNtGopDxe/WinNtGopInput.c:292-327 | The shift state says exactly which keys are held |
| Keys.StampedShiftState | Nt32Pkg/WinNtGopDxe/WinNtGopInput.c:292-327 | The shift state of a keystroke as one word |
| Keys.StampedToggleState | Nt32Pkg/WinNtGopDxe/WinNtGopInput.c:328-339 | The toggle state of a keystroke as one byte |
| Keys.CharacterSurvivesIff | Nt32Pkg/WinNtGopDxe/WinNtGopInput.c:344-361 | A character comes back from ReadKeyStroke as it was typed if and only if it is not a letter with Ctrl |
| Keys.ControlCharacterReturns | Nt32Pkg/WinNtGopDxe/WinNtGopInput.c:598-607 | Ctrl with 1 to 26 comes back for every state of Shift and CapsLock; in between it is a letter, upper case exactly when one of the two is on, without Shift bits |
| Keys.CtrlNumberIsQueued | Nt32Pkg/WinNtGopDxe/WinNtGopInput.c:344-352 | Which letter Ctrl with 1 to 26 becomes |
| Keys.CtrlLetterIsRead | Nt32Pkg/WinNtGopDxe/WinNtGopInput.c:601-607 | Which number Ctrl with a letter becomes |
| KeyInput.GopInput.AddKey | Nt32Pkg/WinNtGopDxe/WinNtGopInput.c:282-368 | The stamped keystroke goes to both queues, each losing it only when full |
| KeyInput.GopInput.TimerHandler | Nt32Pkg/WinNtGopDxe/WinNtGopInput.c:257-270 | Exactly the delivered keystrokes are notified, to all covering entries in list order |
| KeyInput.GopInput.ResetWorker | Nt32Pkg/WinNtGopDxe/WinNtGopInput.c:401-462 | Both queues are left as a drain with the old support leaves them, and the state is cleared |
| KeyInput.GopInput.ReadKeyStrokeWorker | Nt32Pkg/WinNtGopDxe/WinNtGopInput.c:464-532 | Notifications first; then the first keystroke of the read queue or NOT_READY |
| KeyInput.GopInput.ReadKeyStroke | Nt32Pkg/WinNtGopDxe/WinNtGopInput.c:575-611 | Skips partial keystrokes with support, loses one without, and converts the letter |
| KeyInput.GopInput.WaitForKey | Nt32Pkg/WinNtGopDxe/WinNtGopInput.c:625-681 | Removes the leading partial keystrokes and signals if and only if something is left |
| KeyInput.ReadAfterWait | Nt32Pkg/WinNtGopDxe/WinNtGopInput.c:653-675 | WaitForKey signals if and only if some keystroke is whole; whatever is added afterwards, the next ReadKeyStroke succeeds with the first whole one |
| KeyInput.ReadingIff | Nt32Pkg/WinNtGopDxe/WinNtGopInput.c:590-610 | When ReadKeyStroke succeeds, and that it then returns the first whole keystroke and removes just what is up to it |
| KeyInput.TypedKeyIsRead | Nt32Pkg/WinNtGopDxe/WinNtGopInput.c:590-675 | A keystroke with a scan code or a character is waited for and read, with both; one without either is not |
| KeyInterleaving.ReadTakesFirstWhole | Nt32Pkg/WinNtGopDxe/WinNtGopInput.c:590-610 | With any keystrokes added before each CheckQ and each DeleteQ of its loop, ReadKeyStroke takes the first keystrokes of those stored or added, in order, and all but the one that it returns are partial; with support it fails only when the queue is empty |
| KeyInterleaving.ReadReturnsFirstWhole | Nt32Pkg/WinNtGopDxe/WinNtGopInput.c:590-610 | So a successful read returns the first whole keystroke of those stored or added, and removes just what is up to it |
| KeyInterleaving.ReadUndisturbed | Nt32Pkg/WinNtGopDxe/WinNtGopInput.c:590-610 | Without additions this loop is the reading that the method is proved against |
| KeyInput.GopInput.SetState | Nt32Pkg/WinNtGopDxe/WinNtGopInput.c:754-817 | Success makes the locks and the support those of the requested state; failures change nothing |
| Keys.SetStateIsStamped | Nt32Pkg/WinNtGopDxe/WinNtGopInput.c:328-339 | The next keystroke carries the toggle state that was set, except for the three bits without a meaning |
| HotKeys.InvokedIff | Nt32Pkg/WinNtGopDxe/WinNtGopInput.c:244-254 | A function is called for a keystroke if and only if an entry with it covers the keystroke |
| HotKeys.CoversExactly | Nt32Pkg/WinNtGopDxe/WinNtGopInput.c:196-213 | What a registered key covers, for each choice of given states |
| HotKeys.RegistrationStatus | Nt32Pkg/WinNtGopDxe/WinNtGopInput.c:852-891 | Exactly when a registration has which status, and the entry that it returns |
| HotKeys.RegistrationCovers | Nt32Pkg/WinNtGopDxe/WinNtGopInput.c:861-887 | After a successful registration and until its handle is unregistered, every keystroke that the key covers calls the function, also when an entry was reused |
| HotKeys.RunKeepsList | Nt32Pkg/WinNtGopDxe/WinNtGopInput.c:861-942 | In every reachable list handles differ and no entry covers a later one with the same function |
| HotKeys.CalledOnceIff | Nt32Pkg/WinNtGopDxe/WinNtGopInput.c:244-254 | No keystroke calls a function twice if and only if no two entries of one function can cover the same keystroke |
| HotKeys.MeetsIff | Nt32Pkg/WinNtGopDxe/WinNtGopInput.c:196-213 | When two entries can cover the same keystroke, in terms of their keys alone |
| HotKeys.RunCallsOnceIff | Nt32Pkg/WinNtGopDxe/WinNtGopInput.c:861-942 | Over every run of registering and unregistering, no function is ever called twice for a keystroke if and only if each registration reuses an entry, fails, or can share no keystroke with an entry of its function |
| HotKeys.CalledTwice | Nt32Pkg/WinNtGopDxe/WinNtGopInput.c:868-873 | A registration for fewer keystrokes followed by one for more: a keystroke of both calls the function twice |
| HotKeys.UnregisterIsExact | Nt32Pkg/WinNtGopDxe/WinNtGopInput.c:926-947 | Unregistering removes just the entry of the handle, and fails exactly when there is none |
| KeyInput.GopInput.RegisterKeyNotify | Nt32Pkg/WinNtGopDxe/WinNtGopInput.c:821-893 | List, status and handle follow the registration rule |
| KeyInput.GopInput.UnregisterKeyNotify | Nt32Pkg/WinNtGopDxe/WinNtGopInput.c:897-948 | List and status follow the unregistration rule |
| BoundedQueues.RemovedArePrefix | Nt32Pkg/WinNtSerialIoDxe/WinNtSerialIo.c:1426-1433 | Over every run of loopback writes and reads, all bytes read are a prefix of all bytes reported written, and the rest is stored |
| SerialFifo.Fifo.Add | Nt32Pkg/WinNtSerialIoDxe/WinNtSerialIo.c:1627-1666 | Appends unless full; surplus plus stored count stays the capacity and Last stays First plus count modulo the capacity |
| SerialFifo.Fifo.Remove | Nt32Pkg/WinNtSerialIoDxe/WinNtSerialIo.c:1668-1707 | Removes the oldest byte unless empty, with the same invariant |
| SerialIo.SerialPort.WriteLoopback | Nt32Pkg/WinNtSerialIoDxe/WinNtSerialIo.c:1426-1433 | Stores and reports as many bytes as there is room for |
| SerialIo.SerialPort.ReadLoopback | Nt32Pkg/WinNtSerialIoDxe/WinNtSerialIo.c:1527-1570 | Delivers the oldest bytes, leaves the rest of the buffer, and times out exactly when short |
| SerialAttributes.Rounded | Nt32Pkg/WinNtSerialIoDxe/WinNtSerialIo.c:987-992 | The greatest supported rate that is not above the request |
| SerialAttributes.RunKeepsAgree | Nt32Pkg/WinNtSerialIoDxe/WinNtSerialIo.c:1102-1126 | In every reachable state Mode and UartDevicePath agree, and the mode is the first one or a selected one |
| SerialAttributes.AllOrNothing | Nt32Pkg/WinNtSerialIoDxe/WinNtSerialIo.c:1028-1146 | A call takes over all selected attributes or none, and exactly when |
| SerialAttributes.SelectedValues | Nt32Pkg/WinNtSerialIoDxe/WinNtSerialIo.c:952-992 | A request selects its own values, and for zeros the defaults; only the rate is rounded |
| SerialAttributes.SelectedIff | Nt32Pkg/WinNtSerialIoDxe/WinNtSerialIo.c:979-1023 | Exactly which requests are valid |
| SerialAttributes.SetStatus | Nt32Pkg/WinNtSerialIoDxe/WinNtSerialIo.c:1028-1146 | Exactly when a call has which status |
| SerialAttributes.FixedPoint | Nt32Pkg/WinNtSerialIoDxe/WinNtSerialIo.c:885-893 | After a call that has taken the selected attributes over, repeating it and Reset succeed and change nothing, whatever the platform does |
| SerialAttributes.ResetKeepsIff | Nt32Pkg/WinNtSerialIoDxe/WinNtSerialIo.c:885-893 | Reset keeps the attributes for every outcome of the platform if and only if they select themselves or are invalid |
| SerialIo.SerialPort.SetAttributes | Nt32Pkg/WinNtSerialIoDxe/WinNtSerialIo.c:898-1147 | Attributes, device path node and status follow the rule |
| SerialIo.SerialPort.Reset | Nt32Pkg/WinNtSerialIoDxe/WinNtSerialIo.c:852-894 | Sets the present mode again |

## Left out

- Integer widths: addresses, counts and offsets are unbounded, with the 32-bit assumptions named above; the sum of a firmware volume header and the sums of the file checksum wrap, and so do ticks. Record sizes are those of the 32-bit build.
- Header checksum: the library routine is modelled as the sum of 16-bit words.
- The SMM variant of the block service and the switch to virtual addresses; the physical copy of the data serves both.
- Device paths, protocol installation, and the largest block size that initialisation computes and does not use.
- The GUIDs and the checksums of the platform table; its attributes, lengths and block maps are modelled.
- NULL output pointers of GetAttributes, SetAttributes, GetBlockSize and RegisterKeyNotify, which are rejected before anything else.
- GetPhysicalAddress and GetBlockSize, which return what the modelled functions already deliver.
- The window procedure computes a frame buffer size without the header (line 688); the size of line 335 is taken as the intended one. Failures of HeapAlloc, CreateThread and CreateWindowEx, which SetMode does not notice, are not modelled.
- A PEI core file whose size field is below the size of its header; its section search would read beyond the volume.
- Painting the window, the window messages that set the modifier keys, and QueryMode.
- Blocking inside timeKillEvent, and more than one callback at a time. A callback that waits for interrupts may call a handler after a cancellation, because it does not look at the cancel flag again; `TimerRequests.CancelledTimerIsSilent` excludes just these, and `TimerRuns.CalledAfterCancel` shows one.
- GetTimerPeriod and GenerateSoftInterrupt, which only return a value.
- Notification functions that call back into the keyboard driver while they run.
- KeyInput.GopInput.ReadKeyStroke: the loops of this method and of TimerHandler, Drain and WaitForKey run as one step for the window thread. For reading and draining, KeyInterleaving states the loop with additions in between.
- Serial: the real port, SetControl and GetControl, PurgeComm, the conversion to Windows settings, and the bytes of the installed device path.
- The network, disk, multiprocessor, SMBIOS, reset, stall, metronome and CPU I/O drivers of the package.
