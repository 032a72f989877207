# gocracker: verified models

gocracker is a micro-VMM in Go. This project models its self-contained algorithms in Dafny 4.11 and proves what they promise. `dafny verify dfyconfig.toml` checks all of it.

| area | files | main results |
|---|---|---|
| ext4 grower | `Ext4*.dfy` | bitmaps, descriptors and superblock totals agree after every grow; frame; exactly when it is refused, and what is left then |
| Dockerfile stages | `Stage*.dfy` | dropping unneeded stages keeps the image, exactly when no kept instruction misses an ARG |
| device tree | `Fdt*.dfy`, `NulStrings.dfy` | every tree reads back from its blob |
| page tables | `PageTables.dfy` | the walk is the identity below 4 GiB, writable, supervisor only, and nothing is mapped beyond |
| ACPI, MP table, E820 | `Aml*.dfy`, `AcpiResources.dfy`, `Dsdt*.dfy`, `Checksums.dfy`, `Acpi*.dfy`, `MpTable.dfy`, `E820.dfy` | every object reads back; the whole firmware is found from its root |
| exec protocol | `Wire*.dfy` | streams of messages round trip; the reader stays in its frame |
| console filters | `Console*.dfy` | output does not depend on how the stream is cut; exactly which input reaches the guest unchanged |
| compose | `Names.dfy`, `Service*.dfy`, `Address*.dfy` | start order, levels, start-up safety over whole runs, address plan |
| IPv4 and subnets | `Ipv4.dfy`, `Ipv4Text.dfy`, `Subnets.dfy` | addresses as text read back; the /30 search is sound and complete |
| ELF loader | `Elf*.dfy` | concurrent copies are deterministic, and exactly when |
| memory hotplug | `Hotplug.dfy` | convergence against an arbitrary kernel, and exactly when |
| glob | `Glob.dfy` | `**` means any run of segments |

`Bytes.dfy`, `Prelude.dfy` and `GuestMemory.dfy` are shared.

Objects that change in place are classes, buffers are arrays, loops are loops; each such method is proved against a function of the old state, and the theorems are about those functions. Binary formats are specified by a reader written from the standard: the Devicetree Specification v0.4 chapter 5, the ACPI Specification sections 5.2 and 20.2, the Intel MultiProcessor Specification 1.4 chapter 4, and the Intel SDM volume 3A section 4.5. What the tables, frames and filters must mean is stated in plain byte values (the `Seen` predicates, `WireFormat.dfy`, `ConsolePieces.dfy`), not through the constants the writers use. Map iteration, goroutine interleaving, the kernel's answers and the outcomes of starts, probes and exits are arbitrary choices, so each statement covers all of them.

## Where the code does not do what it says

Each item is proved, with the exact condition; the first says how far its condition is exact.

- Dropping unneeded Dockerfile stages can change the image, because the ARG table belongs to the whole build: for some meaning of the steps it does whenever a kept FROM or step looks at an argument that a dropped stage was the first to declare and that the kept stages have not declared alike by then (`StagePruneExact.PruningTellsApart`, `ArgLeaks`). Where no kept instruction looks, or each finds the same, nothing changes (`StagePrune.PruningPreserves`, `StagePruneExact.Redeclared`, `Unread`). For ARG defaults without variables this is an if-and-only-if (`StagePruneExact.PruningSafeExactly`).
- `blocksToGroups` wraps to 0 once blocks + blocksPerGroup passes 2^32, while the block count is still raised: the grown image is then inconsistent, although its groups, its free counts and its inode count still agree (`Ext4Layout.GroupsCoverExactly`, `Ext4Result.ExpandExt4WithinGroups`).
- A refused grow may have written to the image already: a 16-bit overflow is found after the last group's bitmap is rewritten, or after new groups are laid out. The image left is consistent exactly when its last group was full before (`Ext4Result.ExpandExt4WithinGroups`, `Ext4Refusal`).
- `buildPageTables` writes six pages; its comment speaks of about five. The comment also promises user access, but the 2 MiB entries lack the user bit: every address below 4 GiB is writable in supervisor mode only (`PageTables.Identity`).
- The console comments say a lone ESC passes through and function keys survive. Input reaches the guest unchanged exactly when it has no detach key, no sequence that looks like a terminal's reply, and no unfinished end: the carry is never flushed at end of input, so a trailing ESC is lost, and a shifted F3 is taken for a cursor report (`ConsolePump.DeliveredExactly`, `UnfinishedLost`, `LoneEscapeLost`, `ShiftF3Lost`).
- Lists of 65536 or more items do not survive the exec protocol, and a reused response keeps stale counters exactly where the new response has none (`WireRoundTrip.ReuseExactly`, `StaleCounters`).
- Overlap is checked on memory sizes, but file sizes are copied: a segment whose file part is longer can race (`Elf.OverlongRaces`).
- Conflicts between address requests are found by comparing texts: "::ffff:10.0.0.2" and "10.0.0.2" are both accepted and are one address (`AddressResult.MappedCollides`). A plan is sound exactly when the requests are unambiguous (`AddressResult.SoundExactly`).
- MADT processor ids repeat past 256 processors; the MP table leaves the reserved last KiB past 37 processors, although up to 254 are accepted.
- The E820 count is 4 even when memory ends at 1 MiB and only three entries are written.
- MMIO windows are cut to 32 bits in the DSDT, which exists only for up to 1000 devices.
- A hotplug region whose end wraps past 2^64 is reported as empty, and its blocks past the target are not taken offline; if the target wraps too, nothing is brought online and blocks below the region are taken offline instead. Every successful run reaches the target exactly when the end does not wrap (`Hotplug.ApplyExactly`, `WrappedUnplugs`).

## Model

| member | source | states |
|---|---|---|
| Ext4Result.ExpandExt4WithinGroups | internal/oci/oci.go:690-736 | For every consistent image and disk size: an image too short for a superblock is refused untouched; a zero geometry is left alone; success gives `Grown` — every descriptor counts exactly the clear bits of its bitmaps, superblock free and inode counts move by the sum of the group changes, the block count is max(old, target), no old byte changes outside superblock counters, descriptors and the last group's bitmap, old allocation bits and inode bits stay, new groups are laid out inside themselves with their descriptors written byte for byte — and the result is consistent exactly when the target needs no new group or target + blocksPerGroup does not exceed 2^32; it is refused exactly when the last group's free count, a new group's free count or the inode count would not fit 16 bits or the last new group is smaller than its metadata; a refused image keeps its superblock, its old metadata and old bits, holds exactly the bitmap or the groups written by then, and is consistent exactly when the last group was full before |
| Ext4Result.MaxAddressableBlocks | internal/oci/oci.go:952-961 | The largest block count whose bytes fit the disk, or 2^32 - 1 if more would; 0 for no block size or no disk |
| Ext4Result.ReadExt4Geometry | internal/oci/oci.go:749-792 | Fails exactly on an image without a whole superblock; otherwise returns the stored geometry |
| Ext4Result.GrowStep | internal/oci/oci.go:699-710 | The first half of a grow: the last group takes what it can hold and accounts stay balanced; refused exactly when the free count passes 16 bits, and then only the bitmap has been rewritten |
| Ext4Result.AddStep | internal/oci/oci.go:712-722 | The second half: whole new groups are appended with balanced accounts; refused exactly when a new group does not fit, leaving the groups before it and what was written of it |
| Ext4Result.AllFitExactly | internal/oci/oci.go:850-896 | Whether every new group fits is decided by the first and the last of them |
| Ext4Grow.GrowExistingLastGroup | internal/oci/oci.go:794-835 | Succeeds exactly when bitmap, descriptor and 16-bit count allow it; then frees exactly the bits of the added blocks and raises the descriptor by their number; a late overflow leaves the bitmap rewritten and nothing else, any earlier failure changes nothing |
| Ext4Grow.AddExt4Groups | internal/oci/oci.go:837-902 | Nothing happens if no group is missing; otherwise succeeds exactly when every new group fits, and returns the free blocks and inodes gained; if not, the groups before the first that does not fit are laid out |
| Ext4Grow.AddOneGroup | internal/oci/oci.go:850-899 | Lays out one group, with the descriptor fields of `FreshGroup`, or refuses exactly when its metadata does not fit, changing nothing, or a count exceeds 16 bits, with all but the descriptor written |
| Ext4Grow.FillBitmap | internal/oci/oci.go:863-869 | The new bitmap marks exactly metadata and missing blocks as used |
| Ext4Bitmap.SetBitmapBit | internal/oci/oci.go:936-943 | Sets one bit of the buffer and no other; out-of-range indexes change nothing |
| Ext4Bitmap.ClearBitmapBit | internal/oci/oci.go:927-934 | Clears one bit of the buffer and no other; out-of-range indexes change nothing |
| Ext4Bitmap.WithBitsReads | internal/oci/oci.go:927-943 | After setting or clearing a run, a bit inside the run has the new value and every other bit its old one |
| Ext4Image.Image.WriteZeroRegion | internal/oci/oci.go:963-980 | Writing zeros in chunks of at most 4096 bytes equals one write of that many zeros |
| Ext4Image.Image.ReadUint32At | internal/oci/oci.go:904-910 | Fails exactly past the end of the image |
| Ext4Layout.GroupsCoverExactly | internal/oci/oci.go:945-950 | blocksToGroups counts enough groups exactly when blocks + blocksPerGroup does not pass 2^32; beyond that it returns 0 |
| Ext4Accounting.GrowAccounted | internal/oci/oci.go:794-835 | Growing the last group keeps every group's count equal to its clear bits and moves the free total by exactly the blocks added |
| Ext4Accounting.GrowLast | internal/oci/oci.go:794-835 | In the grown group the bits of old blocks, the inode bitmap and all positions stay, and the free count rises by exactly the blocks added |
| Ext4Accounting.AddAccounted | internal/oci/oci.go:837-902 | Adding a group keeps all accounts and adds exactly its free blocks and inodes |
| Ext4Accounting.LaidIsFresh | internal/oci/oci.go:850-899 | A new group's bitmaps and inode table lie inside the group, apart, marked used, the table as many whole blocks as its inodes fill; its free count is the number of clear bits; of its descriptor, bytes 16 to 27 and 30 to 31 are zero and bytes 28 to 29 hold the inodes per group |
| Ext4Layout.OnDisk | internal/oci/oci.go:749-792 | Where the fields stand: the superblock counters and sizes at bytes 1024, 1028, 1036, 1040, 1048, 1056, 1064 and 1112, the fields of descriptor g from byte 4096 + 32 g on |
| Ext4Layout.SumsOver | internal/oci/oci.go:690-736 | The free totals add each descriptor's two counts once, and nothing else |
| Ext4Bitmap.BitOrder | internal/oci/oci.go:927-943 | Item i of a bitmap is bit i % 8 of byte i / 8, least significant first |
| Ext4Frame.AllAdded | internal/oci/oci.go:837-902 | Over the whole loop of new groups, accounts stay balanced and each new group stays laid out |
| Ext4Frame.AllAddedKeep | internal/oci/oci.go:837-902 | No byte below the first new group changes except the new descriptors |
| Ext4Expand.GrowFrame | internal/oci/oci.go:794-835 | Growing the last group changes no byte outside its bitmap and descriptor count |
| Ext4Expand.SuperGeometry | internal/oci/oci.go:724-735 | The counters written to the superblock read back, and nothing else of the geometry changes |
| Ext4Refusal.StoppedAccounted | internal/oci/oci.go:837-902 | Appending that stops at a group that does not fit leaves superblock, old groups and their accounts as they were |
| Ext4Refusal.ClearedOld | internal/oci/oci.go:817-828 | A bitmap rewritten without its descriptor disagrees with it; old metadata and old bits are kept |
| Ext4Result.RefusedGrow | internal/oci/oci.go:703-706 | An image refused while growing the last group is not consistent |
| Ext4Result.RefusedAdd | internal/oci/oci.go:711-715 | An image refused while appending groups is consistent exactly when its last group was full before |
| StagePlan.BuildStagePlan | internal/dockerfile/dockerfile.go:673-718 | Preamble and stages concatenate back to the instructions; each stage opens with its FROM and lists exactly its references |
| StagePlan.ResolveIsNearest | internal/dockerfile/dockerfile.go:746-757 | The backward search returns the nearest earlier stage whose alias or number matches, and none only if there is none |
| StagePlan.ResolvePlannedStageRef | internal/dockerfile/dockerfile.go:746-757 | The search loop computes that nearest match |
| StagePlan.ResolveNumber | internal/dockerfile/dockerfile.go:746-757 | The text of a number below the position leads to the stage of that number, unless a stage in between has it as alias |
| StagePlan.ResolveAlias | internal/dockerfile/dockerfile.go:746-757 | A non-empty alias leads to the last stage before the position that has it, unless a later one has that number |
| StagePlan.ResolveNone | internal/dockerfile/dockerfile.go:746-757 | A reference that is no earlier stage's number or alias leads to none |
| StagePlan.MarkReachableStages | internal/dockerfile/dockerfile.go:720-744 | The marked set is exactly the stages reachable from the last stage, and is closed under references |
| StageRun.Builder.CommitCurrentStage | internal/dockerfile/dockerfile.go:1354-1376 | The open stage is recorded under its number and alias; arguments and file system stay |
| StageRun.Builder.LookupStage | internal/dockerfile/dockerfile.go:1378-1381 | Run-time lookup: the last writer of a name wins |
| StageRun.LookupLast | internal/dockerfile/dockerfile.go:1354-1381 | The table gives the result of the last finished stage with that number or non-empty alias |
| StageRun.LookupNone | internal/dockerfile/dockerfile.go:1354-1381 | It gives nothing for any other name |
| StageRun.Builder.HandleFrom | internal/dockerfile/dockerfile.go:910-966 | FROM commits the open stage and opens the next on scratch, an earlier stage or an external image |
| StageRun.Builder.HandleBody | internal/dockerfile/dockerfile.go:829-908 | Any other instruction; ARG changes the builder-wide table only for unbound names |
| StageRun.Builder.RunStageSteps | internal/dockerfile/dockerfile.go:623-658 | Running one stage instruction by instruction is the stage function of the state before it, errors included |
| StageRun.Builder.Build | internal/dockerfile/dockerfile.go:623-658 | Plan, mark and run equals executing exactly the reachable stages of the plan |
| StagePrune.LookupIsResolve | internal/dockerfile/dockerfile.go:746-757 | In every run that keeps what it references, run-time lookup finds the result of the planner's nearest match — with repeated or number-like aliases too — and nothing when there is no match |
| StagePrune.PrunedTrace | internal/dockerfile/dockerfile.go:623-658 | The pruned run follows the full run stage by stage: same results, and equal values for every argument bound alike |
| StagePrune.PruningPreserves | internal/dockerfile/dockerfile.go:623-658 | If building all stages succeeds, building any reference-closed set that holds the last stage succeeds with the same image, for every meaning of the steps, provided each kept instruction finds the arguments it looks at as if all stages had run |
| StageArgs.BoundIsSteady | internal/dockerfile/dockerfile.go:1092-1124 | It is enough that no dropped stage is the first to declare an ARG |
| StagePruneExact.PruningSafeExactly | internal/dockerfile/dockerfile.go:1092-1124 | With ARG defaults that need no expansion, pruning keeps the image for every meaning of the steps if and only if each kept FROM and step finds the arguments it looks at as if all stages had run |
| StagePruneExact.PruningTellsApart | internal/dockerfile/dockerfile.go:1092-1124 | If a kept FROM or step is shown different arguments once other stages are dropped, some meaning of the steps gives another image |
| StagePruneExact.Redeclared | internal/dockerfile/dockerfile.go:1092-1124 | A file whose kept stage declares the ARG again before its RUN, where pruning is safe |
| StagePruneExact.Unread | internal/dockerfile/dockerfile.go:1396-1400 | A file where nothing looks at the dropped ARG, where pruning is safe |
| StagePruneExact.ArgLeaks | internal/dockerfile/dockerfile.go:1092-1124 | A file whose unused first stage declares an ARG that the RUN of the second would see, where pruning is not safe |
| FdtBlob.FlattenTree | internal/fdt/fdt.go:219-290 | For every tree with NUL-free names below 4 GiB, a reader that follows the header of the emitted blob gets exactly that tree back, and the ten header words are those of version 17 |
| FdtBlob.BlobReads | internal/fdt/fdt.go:430-463 | Header offsets and sizes lead to the encoded tree; total size is a multiple of 8 |
| FdtBlob.BuildDTB | internal/fdt/fdt.go:430-463 | Only zero bytes are appended to the strings, and the blob is 8-byte aligned |
| FdtBlob.BlobHeader | internal/fdt/fdt.go:444-456 | Magic 0xD00DFEED, total size, structure at 56, reservation map at 40 and empty, versions 17 and 16, boot processor 0, sizes that add up |
| FdtRoundTrip.NodeBack | internal/fdt/fdt.go:102-124 | A node encoded anywhere in a structure block reads back as itself, tokens on 4-byte boundaries |
| FdtBuilder.Builder.AddString | internal/fdt/fdt.go:91-100 | The offset is where the name stands; offsets given out before never change |
| FdtBuilder.Builder.BeginNode | internal/fdt/fdt.go:102-111 | Appends token, name and padding; keeps alignment and the string table |
| FdtBuilder.Builder.EndNode | internal/fdt/fdt.go:113 | Appends the end token and keeps the string table valid |
| FdtBuilder.Builder.AddProp | internal/fdt/fdt.go:115-124 | Appends token, length, interned offset and padded value; earlier offsets stay valid |
| FdtBuilder.Builder.EmitNode | internal/fdt/fdt.go:219-290 | A whole tree is appended under one growing string table |
| PageTables.BuildPageTables | internal/kvm/cpu.go:98-133 | For every page-aligned base, a 4-level walk maps each address below 4 GiB to itself, writable and for supervisor mode only, and in zeroed pages no other 48-bit address; the entries are base + 0x1007, base + 0x2007 + 0x1000 i and 0x200000 k + 0x83; nothing outside six pages changes |
| PageTables.Unmapped | internal/kvm/cpu.go:98-133 | Addresses from 4 GiB on lead nowhere while the other entries are zero |
| PageTables.Identity | internal/kvm/cpu.go:98-133 | Tables with the written entries walk to the same address; the rights all levels grant are write, not user |
| ServiceSort.SortServices | internal/compose/compose.go:718-766 | Fails exactly when a dependency is unknown or no topological order exists; otherwise returns a topological order that is a function of the services alone, whatever order maps are visited in |
| ServiceOrder.OrderComplete | internal/compose/compose.go:742-766 | The queue places every service if and only if some topological order exists |
| ServiceOrder.OrderSound | internal/compose/compose.go:742-766 | Placing every service yields each once, dependencies first, and no unknown dependency |
| ServiceOrder.SortableExactly | internal/compose/compose.go:762-766 | With all dependencies known, an order exists exactly when no set of services each depends on another of the set |
| ServiceSort.Tally | internal/compose/compose.go:726-739 | The counts are the numbers of dependencies and the lists the dependents, for any visiting order; an unknown dependency is found exactly when there is one |
| ServiceSort.Release | internal/compose/compose.go:751-761 | Placing a service frees exactly the dependents with no other unplaced dependency, in name order |
| ServiceSort.DependsOn | internal/compose/compose.go:794-804 | The ascending listing of the dependencies |
| Names.AscendingUnique | internal/compose/compose.go:794-804 | A set of names has only one ascending listing, so sorting removes map order |
| ServiceLevels.DependencyGroups | internal/compose/compose.go:768-792 | Group l holds, in start order, exactly the services whose longest dependency chain has l edges; no group is empty and every service is in one |
| ServiceLevels.Levels | internal/compose/compose.go:772-785 | Each computed level is the length of the longest chain |
| ServiceLevels.DependencyLower | internal/compose/compose.go:768-792 | A dependency is on a strictly lower level |
| ServiceStart.Stack.StartAll | internal/compose/compose.go:357-399 | Whatever the outside world answers: at every start each required dependency has started, passed a probe if service_healthy, exited 0 if service_completed_successfully, and each running dependency, required or not, has been probed or awaited as its condition asks; services start in order and stop at the first failure; on success all are up and those required healthy have passed a probe; for a sorted order it fails only if a call failed that a required dependency rests on, or the configuration is unsupported |
| ServiceStart.Stack.StartOne | internal/compose/compose.go:365-397 | One step keeps that safety and names the culprit on failure |
| ServiceStart.Stack.WaitForDependencies | internal/compose/compose.go:401-484 | Success means every required dependency's condition is met in the log and every dependency that is up was asked; with all dependencies up, refusal has a culprit |
| ServiceStart.Stack.CheckDependency | internal/compose/compose.go:414-481 | An unavailable or failing optional dependency is passed over; a required one is refused; an unsupported condition is refused always; one that is up and passed was asked |
| ServiceStart.Stack.CheckHealthy | internal/compose/compose.go:425-452 | One already known healthy is not probed again; one without a usable check is not probed and refused exactly if required; any other is probed once, required or not, and a pass is remembered |
| ServiceStart.Stack.CheckCompleted | internal/compose/compose.go:453-477 | One whose code is known is not awaited again; any other is awaited once, required or not, its code remembered; it is refused exactly if required and the code is not 0 |
| ServiceStart.Stack.ProbeStarted | internal/compose/compose.go:382-396 | A service some other requires healthy is probed once if its check is usable and must pass before start-up goes on; a pass is remembered |
| ServiceStart.RequiredHealthy | internal/compose/compose.go:1116-1126 | Exactly the services some service requires healthy |
| AddressResult.AssignServiceIPs | internal/compose/compose.go:979-1032 | Succeeds exactly when requests are acceptable and enough addresses are free; requests are honoured and the k-th other service gets the k-th free address above the network address; an error names the first faulty request and its fault |
| AddressPlan.PlaceRequests | internal/compose/compose.go:989-1006 | Accepts exactly the requests that name addresses of the subnet and repeat no text, the gateway's included |
| AddressPlan.Take | internal/compose/compose.go:1017-1029 | The lowest unreserved address from the cursor on; none only when all up to the end of the subnet are reserved; it ends for every prefix of at least 1, and for a /0 while an address is free |
| AddressResult.SoundExactly | internal/compose/compose.go:979-1032 | Addresses are distinct, in the subnet and not the gateway's if and only if the requests are unambiguous |
| AddressResult.CanonicalUnambiguous | internal/compose/compose.go:979-1032 | Requests that are the canonical texts of their addresses are always unambiguous |
| AddressResult.SpellingCollides | internal/compose/compose.go:989-1006 | Any text read as an address other than its canonical text is accepted beside the canonical one |
| AddressResult.MappedCollides | internal/compose/compose.go:989-1006 | "::ffff:10.0.0.2" and "10.0.0.2" are accepted together and are one address |
| Ipv4Text.DottedBack | internal/compose/compose.go:994-1004 | The dotted text of an address, alone or behind "::ffff:", is read as that address |
| Ipv4Text.ParseExactly | internal/compose/compose.go:994-1004 | No other text is read as an IPv4 address: the two forms are exactly those read |
| Ipv4.Increment | internal/compose/compose.go:1086-1093 | Adding one byte-wise with early stop is addition with carries |
| Subnets.SelectAvailableSubnet | internal/hostnet/auto.go:321-345 | Returns the first free aligned /30 of the pool at or after the hashed start; fails exactly when every /30 of the pool shares an address with an occupied network |
| Subnets.SubnetAt | internal/hostnet/auto.go:347-366 | Refuses exactly an unfitting prefix; the byte carries amount to base + index * blockSize in 32 bits, masked |
| Subnets.SubnetExact | internal/hostnet/auto.go:347-366 | In an aligned pool without overflow that is exactly base + index * blockSize |
| Subnets.OverlapsAny | internal/hostnet/auto.go:394-401 | True exactly when some occupied network shares an address |
| Subnets.OverlapExactly | internal/hostnet/auto.go:403-413 | Testing the two base addresses decides whether the address sets intersect |
| Ipv4.AddOffset | internal/hostnet/auto.go:358-362 | The in-place carry loop adds the offset |
| Ipv4.AddToValue | internal/hostnet/auto.go:358-362 | Byte-wise carries are addition modulo the width |
| Ipv4.ContainsRange | internal/hostnet/auto.go:415-429 | A network holds exactly the 2^(32 - prefix) addresses from its base, which is a multiple of that number |
| ConsolePump.InputReplyFilter.Process | internal/console/console.go:288-334 | Carry and chunk together fall into bytes, control sequences and an unfinished end: the end is the new carry, and the rest comes out but for paste modes and cursor reports |
| ConsolePump.TerminalOutputFilter.Filter | internal/console/console.go:460-468 | The same for output: paste modes and sequences of digits, semicolons and question marks ending in R or n are left out; each ESC [ 6 n and ESC [ ? 6 n is answered by ESC [ 1 ; 1 R |
| ConsolePump.TerminalOutputFilter.Flush | internal/console/console.go:470-477 | The unfinished end is passed on and the carry emptied |
| ConsolePump.AnswerOutput | internal/console/console.go:516-558 | ESC [ 6 n and ESC [ ? 6 n are answered by ESC [ 1 ; 1 R and left out, other reports left out, all else passed on |
| ConsolePump.PumpInput | internal/console/console.go:218-271 | However the stream is cut into reads, the guest gets the filtered stream up to the first byte 0x1d, or all of it and a byte 0x04 |
| ConsolePump.PumpOutput | internal/console/console.go:359-388 | However the stream is cut, the terminal gets it without those sequences, unfinished end included, and the guest the answers in order |
| ConsolePieces.FiltersOfPieces | internal/console/console.go:288-334 | However a stream is split into such pieces, filtered input, filtered output and answers are those of the pieces, and the carry is the unfinished end |
| ConsolePieces.PiecesUnique | internal/console/console.go:288-334 | A stream splits into such pieces in one way only |
| ConsolePieces.TokensArePieces | internal/console/console.go:516-558 | The scan finds that split |
| Console.Cut | internal/console/console.go:288-334 | Tokens and unfinished end of a concatenation are those of reading the two parts in turn |
| Console.Lossless | internal/console/console.go:516-558 | The tokens and the unfinished end are the stream |
| ConsolePump.OnlyRecognised | internal/console/console.go:288-334 | Everything removed was a recognised sequence, and output and removed tokens merge back into the stream |
| ConsolePump.ShiftF3Lost | internal/console/console.go:338-357 | The key sequence of a shifted F3 does not reach the guest |
| ConsolePump.InputExactly | internal/console/console.go:288-334 | The input filter passes a stream on unchanged if and only if nothing in it looks like a reply and its end is finished |
| ConsolePump.OutputExactly | internal/console/console.go:460-477 | The terminal gets the output unchanged if and only if it holds no query and no sequence the filter drops |
| ConsolePump.DeliveredExactly | internal/console/console.go:218-271 | The guest gets exactly the input and an end-of-transmission byte if and only if there is no detach key, no reply and no unfinished end |
| ConsolePump.UnfinishedLost | internal/console/console.go:262-268 | With no reply and no detach key, exactly the unfinished end is lost |
| ConsolePump.LoneEscapeLost | internal/console/console.go:262-268 | An ESC typed last never reaches the guest |
| ConsolePump.IsHostTerminalReply | internal/console/console.go:338-357 | Exactly ESC [ ? 2 0 0 4 h and l, and ESC [, digits, semicolons and question marks, R |
| ConsolePump.ShouldDropTerminalReply | internal/console/console.go:580-597 | Exactly those, and the same ending in n |
| WireRoundTrip.StreamRoundTrip | internal/guestexec/binary.go:60-113 | Any list of encoded messages sent back to back is received as that list, each decode consuming exactly its own frame |
| WireRoundTrip.RequestRoundTrip | internal/guestexec/binary.go:117-217 | A request comes back clamped and without the fields its mode does not send, if and only if its lists have fewer than 65536 items |
| WireFormat.RequestArrives | internal/guestexec/binary.go:117-217 | Field by field: sizes arrive as the nearest number from 0 to 65535 in exec, stream and resize, texts and lists unchanged in exec and stream, the four memory words unchanged in hotplug modes, everything else empty |
| WireFormat.SizesKept | internal/guestexec/binary.go:380-388 | Columns and rows arrive as sent if and only if they lie between 0 and 65535 |
| WireFormat.ResponseArrives | internal/guestexec/binary.go:221-325 | Field by field, the exit code as the signed 32-bit number congruent to it |
| WireFormat.StreamArrives | internal/guestexec/binary.go:60-113 | Messages sent back to back arrive in order, each so |
| WireFormat.FrameHead | internal/guestexec/binary.go:366-378 | A frame is its length in four big-endian bytes, then a tag from 1 to 6 by mode or 0 for a response, and at most 64 MiB |
| WireFormat.Refused | internal/guestexec/binary.go:366-378 | A message has no frame exactly when its mode is none of the six or its payload is over 64 MiB |
| WireFormat.DecodedFrame | internal/guestexec/binary.go:78-113 | What is decoded had a length from 1 to 64 MiB, all its bytes, and a tag for the destination |
| WireFormat.RequestHolds | internal/guestexec/binary.go:117-144 | Where each field of a request stands in its frame |
| WireFormat.ResponseHolds | internal/guestexec/binary.go:221-259 | Where each field of a response stands in its frame |
| Bytes.ByteWeights | internal/guestexec/binary.go:390-398 | Byte i from the end of a big-endian number, and byte i of a little-endian one, has weight 256^i |
| WireFormat.ListHolds | internal/guestexec/binary.go:421-427 | A list is its count in two bytes and each item behind its length in four |
| WireRoundTrip.ManyArguments | internal/guestexec/binary.go:421-427 | 65536 arguments do not come back |
| WireRoundTrip.ResponseRoundTrip | internal/guestexec/binary.go:221-325 | A response comes back through any destination, absent counters left as the destination had them |
| WireRoundTrip.ReuseExactly | internal/guestexec/binary.go:261-325 | Decoding into a used destination gives what a fresh one gives if and only if the destination holds no counters the response lacks |
| WireRoundTrip.StaleCounters | internal/guestexec/binary.go:261-325 | A response without counters decoded into a destination with counters comes out with the old ones |
| WireRoundTrip.ExitCodeKept | internal/guestexec/binary.go:400-404 | The decoded exit code is the encoded one if and only if it fits 32 bits |
| WireReader.Reader.U8 | internal/guestexec/binary.go:436-443 | Reads in bounds or fails; the offset never passes the end and never goes back |
| WireReader.Reader.Uint | internal/guestexec/binary.go:445-461 | The same for 16 and 32 bits |
| WireReader.Reader.U64 | internal/guestexec/binary.go:463-470 | The same for 64 bits |
| WireReader.Reader.String | internal/guestexec/binary.go:477-488 | The same for a length-prefixed string of any claimed length |
| WireReader.Reader.Strings | internal/guestexec/binary.go:498-515 | The same for a counted list |
| WireReader.ReadRequest | internal/guestexec/binary.go:146-217 | On arbitrary bytes the reading loop computes the parse function |
| WireReader.ResponseBox.Fill | internal/guestexec/binary.go:261-325 | On arbitrary bytes the fields are filled as the parse function says, absent counters untouched; on a failure exactly the fields read by then have changed |
| AmlRoundTrip.PkgBack | internal/acpi/aml.go:17-43 | A package length up to 28 bits decodes to exactly the object's extent |
| AmlRoundTrip.PkgExactly | internal/acpi/aml.go:17-43 | It decodes to the extent if and only if that is below 2^28 |
| AmlRoundTrip.Compact | internal/acpi/aml.go:17-43 | Package lengths and integers take the shortest form that holds them |
| AmlRoundTrip.PathBack | internal/acpi/aml.go:45-74 | A path of up to 255 parts reads back |
| AmlRoundTrip.DataBack | internal/acpi/aml.go:118-177 | Integers of every width, strings and buffers read back, ending at their last byte |
| AmlRoundTrip.RoundTrip | internal/acpi/aml.go:225-276 | Every object built of scopes, devices, methods and names reads back as itself and ends exactly at its last byte |
| AcpiResources.ResourcesBack | internal/acpi/aml.go:142-223 | A resource template reads back as the descriptors it was built from |
| Dsdt.BuildDsdt | internal/acpi/aml.go:282-392 | Succeeds exactly for up to 1000 MMIO devices, with the bytes of the device tree |
| AcpiSeen.DsdtSeen | internal/acpi/aml.go:282-392 | Reading the DSDT from its first byte finds COM1 (PNP0501, interrupt 4, ports 0x3F8-0x3FF), the keyboard controller (PNP0303, ports 0x60 and 0x64, interrupt 1) and for each window i a device V%03d, LNRO0005, with _UID i, _CCA 1, the window's own address, length and interrupt cut to 32 bits, and ends at the last byte |
| AcpiSeen.Eisa | internal/acpi/aml.go:87-103 | PNP0501 is stored as 0x0105D041, and likewise for any four digits |
| Dsdt.AppendPackage | internal/acpi/aml.go:225-255 | Refuses exactly a path with a part of other than four characters; otherwise wraps the children in one package |
| Dsdt.EisaBack | internal/acpi/aml.go:87-103 | The stored bytes unpack to the three letters and four digits |
| DsdtRead.DsdtBack | internal/acpi/aml.go:282-392 | Walking the DSDT by package lengths visits the two fixed devices and then each MMIO device once, in order, ending at the last byte |
| DsdtRead.WindowBack | internal/acpi/aml.go:371-374 | A device's window reads back if and only if address and length fit 32 bits |
| DsdtRead.NamesDiffer | internal/acpi/aml.go:354 | No two MMIO devices share a name |
| AcpiWrite.CreateX86Tables | internal/acpi/acpi.go:47-110 | Succeeds exactly when there is a processor, at most 1000 devices and all five tables fit; then following the root pointer at 0xE0000 (revision 2, length 36) through both root tables finds FADT, MADT and DSDT intact with zero byte sums and the headers, flags, APIC addresses, processors and devices of `SeenFirmware`, tables aligned and disjoint in [0xA0000, 0xE0000), nothing else changed |
| AcpiWrite.Writer.Write | internal/acpi/acpi.go:62-72 | A table goes to the next multiple of 8 and disturbs none before it, or is refused exactly when it would leave the region |
| AcpiWrite.InPlaceReads | internal/acpi/acpi.go:47-110 | Tables in place under the root pointer read as the firmware |
| Acpi.FirmwareBack | internal/acpi/acpi.go:149-233 | Five tables referring to each other and the root pointer read back with their headers and payloads |
| AcpiSeen.FirmwareSeen | internal/acpi/acpi.go:149-233 | The firmware read back has the revisions, names and creator the source gives each table, and the three payloads below |
| AcpiSeen.FadtSeen | internal/acpi/acpi.go:155-168 | Boot flags 4, flags 0x100030, minor version 5, hypervisor GOCRKVM, and zeros but for the DSDT address |
| AcpiSeen.MadtSeen | internal/acpi/acpi.go:170-194 | Local APICs at 0xFEE00000, I/O APIC 0 at 0xFEC00000 from interrupt 0, and an enabled entry per processor |
| Acpi.SdtBack | internal/acpi/acpi.go:119-137 | A table standing in memory passes signature, length and checksum and yields its header fields and payload |
| Acpi.RsdpBalanced | internal/acpi/acpi.go:219-233 | Both root-pointer checksums hold at once |
| Acpi.CpusBack | internal/acpi/acpi.go:170-194 | The MADT lists every processor once, the number cut to a byte |
| Acpi.IdsDistinctExactly | internal/acpi/acpi.go:182-190 | Processor ids are distinct exactly up to 256 processors |
| Checksums.Checksum | internal/acpi/acpi.go:139-147 | The two's complement of the byte sum |
| Checksums.SumParts | internal/acpi/acpi.go:139-147 | Byte sums add up over concatenation |
| Checksums.Finalize | internal/acpi/acpi.go:133-137 | Patching one byte in place |
| Checksums.SealedBalanced | internal/acpi/acpi.go:133-137 | A patched table sums to zero modulo 256 |
| MpTable.Write | internal/mptable/mptable.go:42-156 | Fails exactly for no or more than 254 processors or short memory; otherwise the table reads back through the floating pointer as n enabled processors, the first to boot, an ISA bus, I/O APIC n+1 at 0xFEC00000, its 24 lines and the two local lines, with every version, flag and name; nothing else changed |
| MpTable.Placement | internal/mptable/mptable.go:30-38 | 16-byte aligned, ending at or below 640 KiB; inside the last KiB exactly for up to 37 processors |
| MpTable.MpBack | internal/mptable/mptable.go:42-156 | Signature, both checksums, length and entry count lead to exactly the header fields and entries |
| MpTable.TopologySeen | internal/mptable/mptable.go:42-156 | Those fields and entries, value by value |
| MpTable.BuildEntries | internal/mptable/mptable.go:68-136 | All entries in order and their count |
| E820.WriteE820Map | internal/loader/loader.go:537-553 | Memory afterwards: count and three or four regions, nothing else |
| E820.MapBack | internal/loader/loader.go:537-559 | The kernel reads RAM [0, 0x9FC00), reserved [0x9FC00, 0xE0000) and [0xE0000, 0x100000) and, above 1 MiB, RAM up to the end — otherwise whatever stood in the fourth slot |
| E820.TilesExactly | internal/loader/loader.go:537-553 | The regions tile memory without gap or overlap exactly above 1 MiB, or when the stale slot happens to be an empty region at the end |
| E820.FirmwareReserved | internal/loader/loader.go:543-548 | ACPI tables lie in the reserved region; the MP table does exactly for up to 37 processors, clear of them |
| E820.MpSurvivesAcpi | internal/loader/loader.go:543-548 | Writing the ACPI tables leaves the MP table readable |
| ElfLoad.LoadElf | internal/loader/loader.go:322-394 | A load refused for bounds or overlap changes nothing; otherwise all segments are apart and, where file bytes agree, memory is that of loading in program order under every interleaving, read error or not; it succeeds exactly when every loadable header has a file part and the file holds all of it; a header that does not lie inside memory is refused |
| ElfLoad.CheckOverlap | internal/loader/loader.go:355-362 | Checking neighbours after sorting settles all pairs; for non-empty segments it refuses exactly an overlap |
| ElfLoad.Collect | internal/loader/loader.go:337-354 | Refuses exactly a loadable header whose memory or file part leaves memory or wraps, or whose file part exceeds a 63-bit integer |
| ElfLoad.CopyAll | internal/loader/loader.go:364-382 | Any interleaving of the byte writes of the copies may happen; a failed read stops no other copy |
| ElfLoad.KernelEnd | internal/loader/loader.go:378-380 | The highest segment end |
| Elf.AnyInterleaving | internal/loader/loader.go:364-382 | Where segments agree, every interleaving gives the memory of loading in program order |
| Elf.DeterministicExactly | internal/loader/loader.go:364-382 | The result is independent of the interleaving if and only if overlapping file bytes agree |
| Elf.ApartAgree | internal/loader/loader.go:355-362 | Segments kept apart agree if no file part is longer than its memory part |
| Elf.OverlongRaces | internal/loader/loader.go:349-353 | A file part longer than its memory part passes the checks and races |
| Hotplug.Sysfs.Apply | internal/guest/init.go:535-562 | Whatever the kernel does: success leaves the blocks it plugs online and those it unplugs offline or absent, with the target reported if the end does not wrap; no other block is touched; a settled state is not written to; a request not in whole blocks or for another block size is refused untouched, any other only if an access failed or a wait timed out |
| Hotplug.ApplyExactly | internal/guest/init.go:541-559 | Every successful run leaves exactly the blocks of the region below the target online if and only if base + total does not pass 2^64 |
| Hotplug.WrappedUnplugs | internal/guest/init.go:554-559 | Once base + target wraps, the blocks handled lie below the region and end offline |
| Hotplug.Sysfs.Collect | internal/guest/init.go:564-608 | The report counts exactly the present and the not-offline blocks of the region |
| Hotplug.Counted | internal/guest/init.go:564-608 | The two counts are the sizes of the sets of present and of not-offline blocks |
| Hotplug.ReportExactly | internal/guest/init.go:564-608 | A converged region is reported as the target if and only if base + total does not pass 2^64, or the target is 0 |
| Hotplug.ProbeAddress | internal/guest/init.go:547-550 | The address probed for a block is that block's own |
| Hotplug.Sysfs.EnsurePresent | internal/guest/init.go:655-675 | Success means present; a present block is not touched, another probed once |
| Hotplug.Sysfs.EnsureOnline | internal/guest/init.go:677-702 | Success means online; an online block is not touched, another written to at most twice |
| Hotplug.Sysfs.EnsureOffline | internal/guest/init.go:704-717 | Success means offline or absent; such a block is not touched, another written to once |
| Hotplug.Sysfs.WaitState | internal/guest/init.go:719-732 | A wait ends well only in the wanted state |
| Glob.MatchSegments | internal/dockerfile/transfer.go:500-530 | For every pattern: an answer says exactly whether the path can be split so that each `**` takes a run and every other part matches one segment; an error comes only from a malformed part |
| Glob.OneStep | internal/dockerfile/transfer.go:520-529 | An ordinary pattern part settles exactly one path segment |

## Left out

- Ext4Result.ExpandExt4WithinGroups: takes the image as consistent beforehand, with room in the descriptor table for the target and no 32-bit overflow of old counts; read and write errors of the file and `Sync` are not modelled.
- Ext4Grow.GrowExistingLastGroup: assumes the group's first block and descriptor offset fit 32 bits.
- Ext4Grow.AddExt4Groups: assumes the descriptor table offsets fit 32 bits.
- StagePruneExact.PruningSafeExactly: for plans with a FROM in every stage, no stage that answers to the name "scratch", and no stage ARG whose default must be expanded. With such defaults both halves still hold apart, `PruningPreserves` and `PruningTellsApart`; between them lie expansions of one text at two places, whose outcome depends on the images. References that expand against another stage's ENV lie outside it.
- StagePlan.BuildStagePlan: stage references are taken as already expanded; ARG and ENV expansion, plan-time versus run-time expansion and `--platform` are not modelled.
- StageRun.Builder.HandleFrom: a FROM is expanded at run time against the environment of the stage before it; that channel between stages is not modelled.
- StageRun.Builder.HandleBody: what RUN, COPY and the other steps do is an arbitrary function of the arguments it looks at, its sources and the current file system; which arguments an instruction looks at is given with it.
- FdtBlob.FlattenTree: for blobs below 4 GiB; the concrete trees of `Generate` and `GenerateARM64` and the typed property helpers only choose values and are not written out.
- PageTables.BuildPageTables: requires the six pages to lie in memory, as the caller arranges.
- ServiceStart.Stack.StartAll: a health wait and an exit wait are single calls with any outcome; retries, delays and time-outs inside them are not modelled.
- AddressResult.AssignServiceIPs: requires a masked IPv4 subnet; for a /0 it leaves out plans that need more addresses than are free, where the search wraps round to 0.0.0.0 and in the end never stops. Which network of a service supplies its request is not modelled.
- Ipv4Text.DottedBack: of the texts `net.ParseIP` accepts for an IPv4 address, the dotted form and that form behind "::ffff:" are modelled; the other IPv6 spellings are read here as no address.
- Subnets.SelectAvailableSubnet: networks have contiguous 4-byte masks; the project hash is an arbitrary number.
- ConsolePump.PumpInput: the session ends in end of file or the detach key; read errors, terminal modes and the stop signal are not modelled.
- AmlRoundTrip.RoundTrip: name parts begin with a letter, digit or underscore, as the ACPI name grammar asks; package lengths that do not count themselves are never written and not modelled.
- Dsdt.EisaBack: letters A to Z and hexadecimal digits only.
- AcpiWrite.BuildMadt: tables are assembled as values and patched in an array; fields are not stored one by one into a zeroed buffer.
- E820.WriteE820Map: requires the boot-parameter page to lie in memory.
- ElfLoad.LoadElf: parsing the ELF headers is not modelled; a read fails where the file ends early or the file part is empty, and in no other way.
- Hotplug.Sysfs.Apply: the kernel changes only the block it is told to, and not by itself afterwards; parsing of sysfs text is not modelled.
- Glob.MatchSegments: `path.Match` on one segment is an arbitrary function; splitting and cleaning of paths are not modelled.
- `filterTerminalReplies` and its reader: the same tokenizer again, no longer used by the console.
- HTTP handlers, client, CLI, logging, PTY handling, jailer, netlink, iptables, mounts and KVM ioctls: system calls and plumbing.
- OCI pull, tar extraction, decompression, BuildKit parsing, shell-word expansion: arbitrary functions or inputs here.
- Live migration and the VM registry: their behaviour rests on network replies and code outside these files.
- i8042, PL011, PL031 and layout constants: small register machines that would only add easy members.
