# ROSS kernel: verified models

A Dafny model of the stateful core of the ROSS x86_64 kernel, with proofs of what that
core is for: the FAT32 driver, the memory chain from frame allocator to loaded program
and heap, the scheduler, the keyboard ring and the ram-disk reader.

`dafny verify dfyconfig.toml` checks everything.

## How the model is built

**FAT32** (`Bytes`, `BlockDevice`, `FatLayout`, `FatFormat`, `FatChains`, `Fat32Fs`,
`FileSpec`, `DirRecord`, `DirSpec`, `ShortNames`, `Fat32Node`, `AbstractDir`, `FatDriver`,
`FatRuns`, `FatCrash`). The disk is a byte sequence behind sector transfers of at most eight sectors.
Any transfer may fail, and a failed write may have stored any number of its leading
sectors; so what an operation promises on its failure exits holds after every prefix of
the sector writes it makes. `Fat32Fs` and `Fat32Node` are classes with the driver's own
fields and loops. A ghost view of the volume (one entry table per FAT copy, one byte
string per cluster) is tied to the disk bytes by `FatLayout.Linked`, a file is the byte
string of its chain cut at its size, a directory is the sequence of its 32-byte slots, and
the abstract file system is the list of named byte strings in `AbstractDir.Listing`.
`FatRuns.RunAll` is the top of this tower: any sequence of creations, openings, writes,
reads and closings, with any number of files held open through one node each, does to the
volume what it does to that plain list, and `FatRuns.Failed` says what the first operation
that fails leaves behind: of the other files and nodes nothing is lost in any case, and a
write that only ran out of space has stored the part of the data inside the file. What
other systems write (boot sector, whole volume images, directory records, chains) is
defined by writers of its own, and the driver is shown to read it as it was meant.

What is assumed of a volume is written out in `FatLayout.WfVolume` (at least one FAT, a
data area that covers every cluster the FAT can name, fewer than 0x0FFFFFF7 entries) and
in `FatNode.NodeOk`, `AbstractDir.WfDirectory` and `FatDriver.DirOk` (finite chains ending
in an end-of-chain mark, no shared clusters, the bytes behind a file's end zero, directory
first clusters at least 2).

**Memory** (`Pmm`, `PageTables`, `KernelTables`, `Paging`, `AddressSpace`, `UserImage`,
`Elf`, `Loader`, `Heap`). Physical memory is a sequence of 4096-byte frames and page
tables live inside it as little-endian 64-bit entries. A ghost map says what each frame in
use is for (the table at a position of some address space's tree, or the page at an
index); `PageTables.TreeOk` says that every table entry leads to the frame owned by the
entry's own position, which is what keeps all trees apart. The software walk
(`PageTables.Lookup`, `Paging.LookupPage`) and the processor's walk with 2 MB and 1 GB
pages (`KernelTables.HwWalk`; section 4.5 of the Intel SDM, volume 3A) are both defined,
the latter also with the access rights of user mode (`KernelTables.UserWalk`; section
4.6). The results about loaded programs are stated about the bytes the processor finds in
user mode, and a program's own stores go wherever user mode may write. Which pages those
are follows from the segments' flags, and stack and heap are among them. Program files are
read back from a writer of ELF headers.

**Step machines** (`Scheduler`, `KeyRing`). The scheduler is a class whose methods are
steps of a small state machine, and the theorems are about every sequence of timer ticks,
additions and exits. The ring is a machine of eight atomic steps (four in `push`, four in
`pop`), and the theorems are about every interleaving.

**Ram disk** (`Ustar`). The reader is proved against a writer for ustar archives
(POSIX.1-2017, `pax`, section "ustar Interchange Format") whose unread header fields are
arbitrary.

## What turned out not to hold

Each of these is stated as an exact condition, with an input that fails.

- Creating a file in a slot marked 0xE5 turns the next slot into an end marker, so all
  live records behind it in the directory disappear: `DirSpec.FilledListing` (exactly
  when), `DirSpec.FillingDeletedTruncates` (a one-sector directory).
- A full directory is made longer by linking a cluster before zeroing it. If the device
  fails in between, the directory lists whatever records that cluster still holds. The
  listing survives any failure of a creation if the directory has a free slot or the
  lowest free cluster holds no live record: `FatDriver.CutCreate`; otherwise there is a
  point of failure at which it does not: `AbstractDir.CutAfterLink` (exactly when),
  `AbstractDir.StaleListed` (a volume of two clusters).
- A name that ends in a dot, whose base or extension ends in a space, that is not ASCII or
  that begins with a NUL can be created but is not found again:
  `AbstractDir.CreatedIsFound` (exactly when, over the directory after the insertion),
  `ShortNames.TrailingDotLost` and `AbstractDir.NulNameUnseen` (instances). Such names can
  be created twice: `AbstractDir.CreatedTwice`.
- A write that takes a file to 2^32 bytes or more records the size modulo 2^32 and so cuts
  the contents: `FatNode.Fat32Node.Write` (spliced if and only if the write ends below
  2^32), `FatNode.Fat32Node.WriteAtLimit` (one byte at offset 0xFFFFFFFF empties the file).
- A write that runs out of space has stored data behind the recorded size, where a later
  write brings it into the file instead of zeros. Without a device failure the bytes
  behind the size stay zero if and only if the data stored there was:
  `FatNode.Fat32Node.Write` (by way of `RanFull`), `FatNode.Fat32Node.SlackExposed` (an
  empty file and one free cluster).
- Programs are not isolated. Slot 511 of every address space is the kernel's and carries
  the user and writable flags on all levels, so that user mode may write to every
  physical address below 2 GB. User-mode stores leave all other windows alone if and only
  if they stay out of that slot: `UserImage.IsolationIff` (exactly when),
  `UserImage.AliasStoreHits` (a store at the alias of another program's byte).
- A page that two segments share has the rights of the first one, so that a program may not
  be able to write to its data: `Elf.FirstDecides` (exactly when), `Elf.SharedPageLost` (code
  and data in one page).
- The kernel alias of a physical address translates back to it only below 2 GB; beyond,
  the sum wraps: `KernelTables.AliasInverts` (exactly when), `KernelTables.AliasWraps` (an
  instance). Frames from the allocator are below 1 GB and therefore safe.
- sys_brk and sys_mmap map pages at any address. Below 4 GB the page at the break is mapped
  if and only if it lies in the window from 0x400000 to 0x5FFFFF; elsewhere a word of the
  first frame of its 2 MB page is overwritten, whoever uses it, and the page stays
  unmapped: `Heap.GrowAt` (exactly when), `Heap.BrkPastWindow` (brk(0x601000)).
- The heap of a program without a loadable segment starts at address 0, outside the
  window. It starts in the window if and only if there is such a segment:
  `Elf.HeapEndInWindow`, `Elf.NoHeaders` (an instance); only then its first page is
  mapped: `Heap.SpawnAndGrow`.
- sys_brk and sys_mmap do not look at the stack. With a stack in use and a break below it,
  a call that memory suffices for leaves the stack pages alone if and only if the new
  break is at most 0x500000: `Heap.BrkKeepsStackIff`, `Heap.MmapKeepsStackIff`, and the
  contracts of `Heap.HeapTask.SysBrk` and `Heap.HeapTask.SysMmap`; `Heap.BrkOntoStack`
  (brk(0x501000)).
- Reading a ustar archive drops empty names and ".", and strips one leading "./":
  `Ustar.RoundTripIffPlain` (exactly when), `Ustar.DotSlashLost` (an instance).

## Model

| member | source | states |
|---|---|---|
| `FatRuns.RunAll` | ross-kernel/src/fat32.rs:325-452 | for every sequence of creations, openings, writes, reads and closings, with several files held open through one node each: the directory lists, the held nodes denote and the reads returned exactly what the same operations make of a plain list of named byte strings; a run stops early only at an operation the list refuses too, at a device failure, or where a new record or a write finds too few free clusters, and what that operation leaves of every file and held node is stated |
| `FatRuns.ReopenedReadsWritten` | ross-kernel/src/fat32.rs:340-452 | on the list, what is written through the node of a created file is what is read after closing and opening it again by name |
| `FatRuns.Perform` | ross-kernel/src/fat32.rs:325-452 | one such operation refines one step on the list; without a device failure it fails exactly if the list refuses it or space is short, as can be told before; refused, or out of space for a new record, it leaves the session as it was; otherwise a failed creation keeps all old files, and a failed write all other files and the nodes held for them; a write that ran out of space has stored the part of the data inside its file, and if the bytes behind the end are zero the session goes on with that |
| `FatRuns.DoWrite` | ross-kernel/src/fat32.rs:340-396 | a write through one of several held nodes keeps all of them tied to their records; a failed one the others, and its own unless the device failed or data was left behind the end |
| `FatRuns.OpenDecided` | ross-kernel/src/fat32.rs:436-452 | a file found by name is a new handle unless a held node has its record |
| `FatRuns.RunKeepsNames` | ross-kernel/src/fat32.rs:398-405 | names in a directory stay distinct over every run |
| `FatRuns.FirstAgrees` | ross-kernel/src/fat32.rs:286-288 | the record the driver finds under a name is the first entry of the list with that name, letter case aside |
| `FatDriver.Root` | ross-kernel/src/fat32.rs:73-75 | the root node is a sound directory node for the chain the FAT gives the root cluster; on a newly formatted volume it lists nothing |
| `FatDriver.CreateIn` | ross-kernel/src/fat32.rs:398-426 | creating a findable name appends one empty file and returns a fresh node open for it, ready to be written; without a device failure this succeeds exactly if the name is acceptable and new and there is a free slot or a free cluster; a creation that fails without a device failure changes nothing, and one that is cut off keeps all old files and their listing |
| `FatDriver.CreateCutSound` | ross-kernel/src/fat32.rs:398-426 | from the changes a failed `create` makes on disk: old records, chains and contents are there, and the listing is one of three stated ones |
| `FatDriver.CutCreate` | ross-kernel/src/fat32.rs:240-258 | if the directory has a free slot, or the cluster it would be given holds no live record, a failed creation leaves the old listing or that and the new file |
| `FatDriver.OpenFile` | ross-kernel/src/fat32.rs:436-452 | a node opened by name agrees with its record and denotes the listed contents of the first match |
| `FatDriver.BoundOpened` | ross-kernel/src/fat32.rs:436-452 | a node that holds what a record says is open for that file: it agrees with the disk and denotes the listed contents |
| `FatDriver.WriteOpened` | ross-kernel/src/fat32.rs:340-396 | a write through an open node splices its file, cut to the size modulo 2^32, and below 2^32 leaves the node open for it, again and again; without a device failure it succeeds exactly if the chain and the free clusters hold its end; on a full volume the file has the part of the data inside it, and the node stays open if and only if the bytes stored behind the end are zero; in every outcome every other file and record of the directory is untouched |
| `FatDriver.StillBound` | ross-kernel/src/fat32.rs:340-396 | after a write the record of the file has its old place and says what the node caches |
| `FatDriver.ReadOpened` | ross-kernel/src/fat32.rs:325-338 | a read through an open node is the slice of the listed contents, clipped at their end, and leaves the node open |
| `FatDriver.CreateSound` | ross-kernel/src/fat32.rs:398-426 | from the changes `create` makes on disk: the directory stays well formed, its list gains the new empty file, names stay distinct |
| `FatDriver.WriteSound` | ross-kernel/src/fat32.rs:340-396 | from the changes `write` makes on disk, completed or out of space: the abstract list changes in one entry's contents, to those of the node |
| `FatDriver.DirectoryNode` | ross-kernel/src/fat32.rs:340-396 | a directory node survives writes to the files in it |
| `AbstractDir.WriteRefines` | ross-kernel/src/fat32.rs:340-396 | after a completed write the directory is well formed and all other listed files are the same |
| `AbstractDir.WriteIsolates` | ross-kernel/src/fat32.rs:340-396 | after any write, finished or not, all other records, chains and contents of the directory are the same |
| `AbstractDir.OtherChainUntouched` | ross-kernel/src/fat32.rs:340-396 | any chain on the volume that avoids the written file's clusters is still a chain in every FAT copy and holds the same bytes |
| `AbstractDir.DirectoryUntouched` | ross-kernel/src/fat32.rs:260-269 | any directory keeps its live records, except the first-cluster and size fields of the written file's own record |
| `AbstractDir.CreateRefines` | ross-kernel/src/fat32.rs:398-426 | creation appends one empty file to the list and keeps the rest |
| `AbstractDir.CreatedIsFound` | ross-kernel/src/fat32.rs:398-452 | in a compact directory a created file is found again under its name if and only if the name is clean and does not begin with a NUL; otherwise the name is still free afterwards |
| `AbstractDir.CreatedTwice` | ross-kernel/src/fat32.rs:398-405 | a name that is not clean is created twice, giving two records with one packed name |
| `AbstractDir.NulNameUnseen` | ross-kernel/src/fat32.rs:398-421 | a clean name that begins with a NUL is accepted and its record is never listed |
| `AbstractDir.CutAfterLink` | ross-kernel/src/fat32.rs:146-169 | a device failure after the new cluster of a full directory was linked leaves the listing as it was if and only if that cluster held no live record |
| `AbstractDir.StaleListed` | ross-kernel/src/fat32.rs:146-169 | on a volume whose second cluster still holds a record "STALE", a creation in the full directory of the first one, cut after the link, makes the directory list that record |
| `AbstractDir.CreateKeepsNames` | ross-kernel/src/fat32.rs:398-405 | creating a clean name keeps the decoded names distinct |
| `AbstractDir.PlacesDistinct` | ross-kernel/src/fat32.rs:213-236 | every slot of a directory has a place of its own |
| `FatNode.Fat32Node.Read` | ross-kernel/src/fat32.rs:325-338 | returns exactly the requested slice of the file's bytes, clipped at its end; fails only for a directory or a device failure |
| `FatNode.Fat32Node.Write` | ross-kernel/src/fat32.rs:340-396 | on success the contents are the old ones, zero-extended, with the data spliced in, cut to the size modulo 2^32, and so spliced exactly if the write ends below 2^32; the record agrees with the node; unless the device fails it succeeds if and only if the file's clusters and the free ones hold the end of the data; in every outcome each byte of the chain is the old one or the one written there, and only the file's own and free clusters, their links and its own record fields changed; out of space, the data that fits is stored, the size is the old one, and the bytes behind it stay zero if and only if those stored there are; a write inside the file keeps size and zeros behind the end in every outcome; refused writes change nothing |
| `FatNode.Fat32Node.WriteAtLimit` | ross-kernel/src/fat32.rs:340-396 | one byte written at offset 0xFFFFFFFF leaves an empty file |
| `FatNode.Fat32Node.SlackExposed` | ross-kernel/src/fat32.rs:340-396 | with one free 512-byte cluster and an empty file, 1024 bytes written at 0 fail, and a byte then written at 100 makes the file the first 100 of them and that byte |
| `FatNode.Fat32Node.WriteThenRead` | ross-kernel/src/fat32.rs:325-396 | a read after a write returns the slice of the spliced contents, cut where the recorded size ends |
| `FatNode.Fat32Node.WriteBytes` | ross-kernel/src/fat32.rs:346-389 | the chain grows as needed and its bytes become the padded old ones with the data stored at the offset; without a device failure it fails only with all free clusters taken and the data stored up to the end of the chain |
| `FatNode.Fat32Node.EnsureFirst` | ross-kernel/src/fat32.rs:346-361 | a file without clusters gets a zeroed first one, and its record's split first-cluster field reads back as it; without a device failure this fails only on a full volume |
| `FatNode.Fat32Node.UpdateSizeOnDisk` | ross-kernel/src/fat32.rs:260-269 | the record's size field becomes the given size and nothing else in its cluster changes |
| `FatNode.Fat32Node.WalkDir` | ross-kernel/src/fat32.rs:213-236 | visits exactly the live records, in order, up to the end marker, and stops at the first result |
| `FatNode.Fat32Node.FindDir` | ross-kernel/src/fat32.rs:436-452 | the first matching record, decoded; none only if there is none, it is no directory, or the device failed |
| `FatNode.Fat32Node.FindFreeSlot` | ross-kernel/src/fat32.rs:240-258 | the first free slot, or slot 0 of a zeroed cluster appended when there is none; without a device failure a failed search changes nothing |
| `FatNode.Fat32Node.Insert` | ross-kernel/src/fat32.rs:407-421 | the record is stored in the first free slot and the slot behind it becomes the end marker |
| `FatNode.Fat32Node.Create` | ross-kernel/src/fat32.rs:398-426 | success exactly inserts the new record after the test on decoded names; unless the device fails it succeeds exactly for an acceptable name that no live record has, if the directory has a free slot or the volume a free cluster; a failure leaves a stated cut of the insertion |
| `FatNode.VisitCluster` | ross-kernel/src/fat32.rs:217-232 | enumerating one cluster's slots is a step of enumerating the directory's live records |
| `DirSpec.FilledListing` | ross-kernel/src/fat32.rs:407-421 | filling a slot lists the old records and the new one if and only if no live record lies behind it, or it was deleted and last in its cluster, or it was the end marker and not last |
| `DirSpec.FillingDeletedTruncates` | ross-kernel/src/fat32.rs:407-421 | in a one-sector directory, filling a deleted first slot leaves the new record as the only one listed |
| `DirSpec.InsertedCompact` | ross-kernel/src/fat32.rs:240-258 | in a directory without deleted slots and zero behind the end marker, insertion appends to the listing and keeps that shape, also when a cluster is added |
| `DirSpec.InsertCutLive` | ross-kernel/src/fat32.rs:240-258 | a failed insertion leaves the old listing, that and the new record, or that and the records of the cluster that was to be appended |
| `DirSpec.TornCluster` | ross-kernel/src/fat32.rs:407-421 | a cut off write of a directory cluster leaves the record wholly there or wholly not |
| `DirSpec.VisitFinder` | ross-kernel/src/fat32.rs:436-452 | searching by visiting finds the first match of the listing |
| `DirSpec.ListedIff` | ross-kernel/src/fat32.rs:213-236 | up to the end marker exactly those records are listed whose first byte is not 0xE5 and whose attributes have no volume bit |
| `DirSpec.NewRecordIs` | ross-kernel/src/fat32.rs:407-421 | the record of a new file is that of an empty file with the archive attribute and first cluster 0 |
| `DirRecord.RecordRead` | ross-kernel/src/fat32.rs:286-297 | of a record as another system writes it the driver reads name, first cluster (high half at 0x14), size, and which are directories and volume labels |
| `DirRecord.FirstClusterStored` | ross-kernel/src/fat32.rs:290-293 | the split first-cluster field round-trips and leaves the rest of the record |
| `DirRecord.SizeStored` | ross-kernel/src/fat32.rs:295-297 | the size field round-trips and leaves the rest of the record |
| `ShortNames.CleanDecodes` | ross-kernel/src/fat32.rs:274-313 | a clean name's packed form decodes to its lower case |
| `ShortNames.MatchesItself` | ross-kernel/src/fat32.rs:286-313 | a packed name matches the name it came from if and only if that is clean |
| `ShortNames.PackedEqual` | ross-kernel/src/fat32.rs:301-313 | two clean names pack equally if and only if they are equal ignoring case |
| `ShortNames.AcceptedIff` | ross-kernel/src/fat32.rs:301-313 | exactly the names of a base of one to eight bytes, or of such a base, a dot and an extension of at most three bytes without one, can be packed |
| `ShortNames.AcceptedWithExt` | ross-kernel/src/fat32.rs:301-313 | base and extension are accepted exactly by their lengths, and packed in upper case, padded with spaces; the base may contain dots |
| `ShortNames.AcceptedPlain` | ross-kernel/src/fat32.rs:301-313 | a name without a dot is accepted exactly if it has one to eight bytes |
| `ShortNames.PackedDecodes` | ross-kernel/src/fat32.rs:274-284 | the packed name of any base and extension decodes to both in lower case, byte by byte as character codes in UTF-8, with a dot if there is an extension |
| `ShortNames.TrailingDotLost` | ross-kernel/src/fat32.rs:301-313 | "a." packs like "a" and does not match itself |
| `Fat32.Fat32Fs.Mount` | ross-kernel/src/fat32.rs:28-71 | a volume is mounted with the layout its boot sector describes; it is refused exactly if that describes none, or on a device failure |
| `Fat32.Fat32Fs.MountImage` | ross-kernel/src/fat32.rs:28-81 | the image of a volume, laid out as reserved area, FAT copies and clusters one behind the other, is mounted with that layout and seen to hold those FAT entries and cluster contents |
| `Fat32.Fat32Fs.ReadCluster` | ross-kernel/src/fat32.rs:88-101 | the cluster's bytes, through transfers of at most eight sectors |
| `Fat32.Fat32Fs.WriteCluster` | ross-kernel/src/fat32.rs:104-117 | replaces one cluster and nothing else; cut off, some leading sectors are the new ones and the rest the old |
| `Fat32.Fat32Fs.NextCluster` | ross-kernel/src/fat32.rs:119-127 | the low 28 bits of the entry in the first FAT copy |
| `Fat32.Fat32Fs.SetFatEntry` | ross-kernel/src/fat32.rs:129-143 | sets the low 28 bits of one entry in every copy; cut off, each copy has the old or the new entry and nothing else moved |
| `Fat32.Fat32Fs.FindFree` | ross-kernel/src/fat32.rs:146-158 | the lowest free cluster; full exactly when none is free |
| `Fat32.Fat32Fs.AllocCluster` | ross-kernel/src/fat32.rs:146-169 | marks, links and zeroes the lowest free cluster; cut off, every copy is in a stage where the mark precedes the link, and the cluster is zeroed up to some sector |
| `Fat32.Fat32Fs.ReadChainInto` | ross-kernel/src/fat32.rs:171-185 | the leading bytes of the chain, at most as many as asked for and as there are |
| `FatChains.AllocKeepsForest` | ross-kernel/src/fat32.rs:146-169 | in every stage of an allocation the chains are disjoint, finite and terminated: the old ones, or the old ones with one a cluster longer |
| `FatChains.FreeTaken` | ross-kernel/src/fat32.rs:146-169 | a completed allocation takes exactly one cluster from the free ones |
| `FatChains.ChainDistinct` | ross-kernel/src/fat32.rs:171-185 | a chain that ends never visits a cluster twice |
| `FatChains.ChainUnique` | ross-kernel/src/fat32.rs:171-185 | a FAT copy gives a first cluster at most one chain |
| `FatChains.StoredChain` | ross-kernel/src/fat32.rs:119-127 | links with arbitrary top bits that end in any of the eight end marks are a chain |
| `FatCrash.AllocCrashSafe` | ross-kernel/src/fat32.rs:129-169 | after any prefix of an allocation's sector writes the chains of each FAT copy form a forest and hold the same bytes |
| `FatCrash.AllocKeepsAgreement` | ross-kernel/src/fat32.rs:146-169 | a completed allocation keeps all copies in agreement |
| `FatCrash.LinkRunEntry` | ross-kernel/src/fat32.rs:119-143 | after any run of link updates each copy keeps its own top four bits, untouched entries are unchanged and a link is the value last set |
| `FatCrash.LinkRunAgrees` | ross-kernel/src/fat32.rs:129-143 | copies that agree before a run of link updates agree after it |
| `FatCrash.SetThenRead` | ross-kernel/src/fat32.rs:119-143 | after any sequence of link updates a link reads back as the value last set for it, or the old one, and copies that agreed still agree |
| `FatFormat.WrittenParsed` | ross-kernel/src/fat32.rs:28-52 | a layout stored at the places the standard gives its six fields is parsed as that layout, whatever the rest of the sector holds |
| `FatFormat.ParsedDescribes` | ross-kernel/src/fat32.rs:28-52 | a sector is parsed as a layout if and only if it has the signature, 512-byte sectors, 2^k sectors in a cluster for a k up to 7, no 16-bit FAT size, and the fields of that layout |
| `FatFormat.ImageLinked` | ross-kernel/src/fat32.rs:63-81 | in the image of a volume every entry of every FAT copy and every cluster is where the driver looks for it |
| `FatLayout.ClustersApart` | ross-kernel/src/fat32.rs:79-81 | different clusters occupy disjoint byte ranges |
| `FatLayout.FatCopiesApart` | ross-kernel/src/fat32.rs:63-71 | different FAT copies occupy disjoint byte ranges |
| `FatLayout.LinkedClusterWrite` | ross-kernel/src/fat32.rs:104-117 | storing bytes in a cluster changes that cluster of the view only |
| `FatLayout.LinkedEntryWrite` | ross-kernel/src/fat32.rs:129-143 | storing an entry changes that entry of that copy only |
| `BlockDevice.Disk.ReadSectors` | ross-kernel/src/ahci.rs:212-275 | the sectors asked for, or a refusal |
| `BlockDevice.Disk.WriteSectors` | ross-kernel/src/ahci.rs:278-333 | stores the buffer, or some leading sectors of it |
| `Pmm.Allocator.Init` | ross-kernel/src/pmm.rs:26-45 | the frames of all usable regions become free, each counted once however often regions cover it |
| `Pmm.Allocator.AllocPage` | ross-kernel/src/pmm.rs:48-62 | the lowest free frame, below 1 GB, leaves the free set; none exactly when nothing is free |
| `Pmm.Allocator.FreePage` | ross-kernel/src/pmm.rs:65-75 | the frame is free afterwards; frames beyond the bitmap and double frees change nothing |
| `Pmm.NoDoubleAllocation` | ross-kernel/src/pmm.rs:48-75 | in every run no frame is handed out twice without a release in between |
| `Pmm.Conservation` | ross-kernel/src/pmm.rs:26-75 | in every run that releases only what is out, free and outstanding frames make up the pool without overlap |
| `Pmm.Serve` | ross-kernel/src/pmm.rs:48-75 | every sequence of requests is such a run, and then free count plus outstanding frames equals the total count |
| `PageTables.InsertKeepsTree` | ross-kernel/src/paging.rs:195-229 | hanging a zeroed table below an empty entry keeps all trees separate |
| `PageTables.InsertKeepsLookups` | ross-kernel/src/paging.rs:195-229 | and changes no translation in any address space |
| `PageTables.MapUpdatesOnePage` | ross-kernel/src/paging.rs:231-231 | storing a leaf entry changes the translation of that page alone |
| `PageTables.IxInjective` | ross-kernel/src/paging.rs:165-168 | pages of the 48-bit space have table indices of their own |
| `Paging.Machine.constructor` | ross-kernel/src/paging.rs:46-87 | boot builds the static tables, they form a sound tree, and the kernel alias of every address below 2 GB works, in user mode too |
| `Paging.Machine.EnsureTable` | ross-kernel/src/paging.rs:195-229 | follows a link or inserts a zeroed table, and follows a 2 MB page as if it were a table; no translation and no used frame changes |
| `Paging.Machine.EnsurePt` | ross-kernel/src/paging.rs:187-229 | reaches the last-level table of a page, inserting up to three tables, or the first frame of the 2 MB page in the way |
| `Paging.Machine.MapUserPage` | ross-kernel/src/paging.rs:187-232 | without a 2 MB page in the way, a finite-map update of the translations of all address spaces, with the leaf entry's address and flags, and on exhausted memory no change of a translation; with one, a word of that page's first frame is overwritten and nothing else changes |
| `Paging.MapIsUpdate` | ross-kernel/src/paging.rs:164-232 | by addresses: the mapped page is looked up as the new frame, every other page of this space and every page of the others (the shared top slot aside) as before |
| `Paging.LeafFlags` | ross-kernel/src/paging.rs:231-231 | present and user are set, writable and all higher flags are the caller's |
| `Paging.WalkFollowsLookup` | ross-kernel/src/paging.rs:164-185 | where 4 KB pages are used the processor's walk and the kernel's lookup agree, unmapped pages included |
| `Paging.UserReadsPages` | ross-kernel/src/paging.rs:164-232 | in user mode the 4 KB pages of an address space can be read, and what is read is where the kernel's lookup says |
| `Paging.UserWritesPages` | ross-kernel/src/paging.rs:187-232 | they can be written in user mode if and only if their own entry says so |
| `Paging.UserReachesPages` | ross-kernel/src/paging.rs:120-232 | outside slot 511 user mode reaches nothing but 4 KB pages, and those where the lookup says |
| `Paging.HugeWalkKept` | ross-kernel/src/paging.rs:187-232 | where the processor finds a 2 MB page it finds the same one after mapping 4 KB pages |
| `Paging.LeafDecidesRights` | ross-kernel/src/paging.rs:195-229 | on the way to a 4 KB page every entry allows user access and writing |
| `Paging.SpacesShareTop` | ross-kernel/src/paging.rs:125-128 | every address space of a sound machine translates addresses in slot 511 as the kernel's tables do, the kernel alias included, which user mode may write through |
| `Paging.AliasKept` | ross-kernel/src/paging.rs:42-87 | the kernel alias of every address below 2 GB, open to stores in user mode, survives whatever keeps used table links |
| `KernelTables.BuildTables` | ross-kernel/src/paging.rs:46-87 | the static tables hold the intended entries and no other frame changes |
| `KernelTables.LowIdentity` | ross-kernel/src/paging.rs:46-87 | the processor maps every address below 4 GB to itself |
| `KernelTables.AliasInverts` | ross-kernel/src/paging.rs:42-87 | the kernel alias of p translates to p if and only if p is below 2 GB |
| `KernelTables.AliasWraps` | ross-kernel/src/paging.rs:42-44 | the alias of 2 GB is address 0 |
| `KernelTables.TopMapped` | ross-kernel/src/paging.rs:46-87 | the processor maps the top 4 GB to the first 4 GB with the halves exchanged |
| `AddressSpace.CreateUserAddressSpace` | ross-kernel/src/paging.rs:120-160 | the new space's tables are complete, made of fresh frames, part of the separate trees, and change nothing else; slot 511 translates as in the kernel's tables, where the alias stays |
| `AddressSpace.SpaceShape` | ross-kernel/src/paging.rs:120-160 | the processor maps every address below 4 GB to itself, open to stores of the kernel, except 0x400000 to 0x5FFFFF, which is unmapped |
| `AddressSpace.SpaceEmpty` | ross-kernel/src/paging.rs:136-153 | a new space has no 4 KB page below slot 511 and its hole takes them |
| `UserImage.PagesDistinct` | ross-kernel/src/pmm.rs:48-62 | different user pages, of one or of several spaces, have different frames |
| `UserImage.LowKept` | ross-kernel/src/paging.rs:136-153 | that identity mapping around the window, open to stores of the kernel, survives every change that keeps used table links |
| `UserImage.MapSlot` | ross-kernel/src/paging.rs:187-232 | mapping an unused frame sets one page of one program window and its right to be written, as the flags say; other windows and rights stay |
| `UserImage.WriteSlot` | ross-kernel/src/task.rs:262-302 | writing through the frame of a page changes that page of that window alone and no rights |
| `UserImage.UserReachesWindow` | ross-kernel/src/paging.rs:120-160 | outside slot 511 user mode reaches the mapped pages of the program window and nothing else |
| `UserImage.UserStore` | ross-kernel/src/paging.rs:120-232 | a store in user mode outside slot 511 changes one byte of the program's own window and no other window; in slot 511 it changes the byte at the physical address |
| `UserImage.AliasStoreHits` | ross-kernel/src/paging.rs:125-128 | a store in user mode at the kernel alias of another program's byte is allowed and changes that byte |
| `UserImage.IsolationIff` | ross-kernel/src/paging.rs:54-80 | as long as another program has a page, the user-mode stores of a top-level slot leave all other windows alone if and only if the slot is not 511 |
| `Elf.CopiedByte` | ross-kernel/src/task.rs:277-302 | the per-page copy puts exactly the segment's file bytes where they belong |
| `Elf.LoadAllBytes` | ross-kernel/src/task.rs:236-313 | loading page by page leaves, at every address, what the segments in order say byte by byte |
| `Elf.LoadedImage` | ross-kernel/src/task.rs:236-313 | for non-overlapping segments that may share pages, file bytes and zeroes are where the headers say |
| `Elf.HeapEndIsMax` | ross-kernel/src/task.rs:300-301 | the heap starts at the largest page-rounded segment end |
| `Elf.HeapEndInWindow` | ross-kernel/src/task.rs:234-301 | the heap of a loadable program starts in the window, not above the stack, if and only if it has a loadable segment, and at 0 otherwise |
| `Elf.NoHeaders` | ross-kernel/src/task.rs:234-301 | a file without program headers is loadable and its heap starts at 0 |
| `Elf.ProgramRead` | ross-kernel/src/task.rs:214-246 | from a file with an ELF header and program headers written at their standard places the loader reads that entry point and those headers |
| `Elf.ValidIsWritten` | ross-kernel/src/task.rs:214-233 | a header is accepted if and only if it has the identification of a 64-bit ELF image |
| `Elf.FirstDecides` | ross-kernel/src/task.rs:247-271 | a page may be written to if and only if the first segment with a part in it says so |
| `Elf.SharedPageLost` | ross-kernel/src/task.rs:247-271 | data that shares its page with code loaded before cannot be written to |
| `Loader.EnsurePage` | ross-kernel/src/task.rs:247-271 | a page mapped before is reused with its rights, otherwise a zeroed one is mapped with the flags given |
| `Loader.LoadOne` | ross-kernel/src/task.rs:237-305 | maps and fills one segment; the pages it maps first are writable if and only if its flags say so; other spaces keep their windows, also on exhausted memory |
| `Loader.LoadProgram` | ross-kernel/src/task.rs:234-313 | the window becomes the image of all segments, with the rights of the first segment in each page, and the heap end their maximum |
| `Loader.MapStack` | ross-kernel/src/task.rs:315-323 | eight stack pages are mapped from 0x500000 on and can be written to in user mode, nothing else in the window changes |
| `Loader.Spawn` | ross-kernel/src/task.rs:214-335 | on success the program finds in user mode, at every address of the program area, the byte the segments give it or no page, and can write where the first segment in the page says so; the stack is mapped and can be written to, the rest of the first 4 GB is still mapped to itself, slot 511 and the kernel alias are the kernel's, entry, stack top and heap end are right, and every other address space keeps its window and rights; refused exactly for a bad header |
| `Loader.ProgramReadsItself` | ross-kernel/src/task.rs:234-313 | a well-formed program reads its file bytes and zeroes after them in user mode, through its own page tables |
| `Loader.UserWritesSlot` | ross-kernel/src/paging.rs:187-232 | user mode may write to an address of the window if and only if its page was mapped writable |
| `Loader.StackWrites` | ross-kernel/src/task.rs:315-323 | all of the stack can be written to in user mode if and only if its eight pages were mapped writable |
| `Heap.AllocAnon` | ross-kernel/src/mmap.rs:4-13 | pages from the base on become zeroed pages that user mode may write to; on exhausted memory the first n of them have |
| `Heap.Extend` | ross-kernel/src/syscall.rs:219-233 | zeroed writable pages up to the requested break, or as far as memory goes |
| `Heap.HeapTask.SysBrk` | ross-kernel/src/syscall.rs:210-238 | the break stays aligned and never falls, the pages gained are zero and writable, all others keep contents and rights, every heap page keeps a frame of its own; short only when memory is exhausted; the stack is kept if and only if the new break is at most 0x500000 |
| `Heap.HeapTask.SysMmap` | ross-kernel/src/syscall.rs:242-267 | returns the old break and moves it by whole pages, or fails and leaves it, with zeroed pages possibly left above; the pages gained are writable; the stack is kept if and only if the new end is at most 0x500000 |
| `Heap.HeapTask.StoreByte` | ross-kernel/src/paging.rs:120-232 | any store that user mode allows outside slot 511 keeps the heap invariant and all other windows |
| `Heap.HeapTask.Run` | ross-kernel/src/syscall.rs:210-267 | all calls are performed, up to one that leaves the window, a store that faults or goes to the top 512 GB, or a panic on exhausted memory; over every run of both calls and of stores that user mode allows outside slot 511 the heap invariant holds, breaks are aligned, never decrease and move only as the call says, heap and stack can be written to, no right is lost and none gained below the first break, other spaces keep their windows, and the identity mapping around the window, slot 511 and the kernel alias stay |
| `Heap.HeapWrites` | ross-kernel/src/mmap.rs:4-13 | a program can write to every byte of its heap in user mode |
| `Heap.MappedHeap` | ross-kernel/src/mmap.rs:4-13 | heap pages are mapped writable to pairwise different frames |
| `Heap.StackKeptIff` | ross-kernel/src/syscall.rs:219-233 | growing the heap over some slots leaves the stack alone if and only if it misses them or they were zero pages already |
| `Heap.BrkKeepsStackIff` | ross-kernel/src/syscall.rs:210-238 | with a break below a stack in use, sys_brk keeps the stack if and only if the new break is at most 0x500000 |
| `Heap.MmapKeepsStackIff` | ross-kernel/src/syscall.rs:242-267 | the same for sys_mmap and its new end |
| `Heap.BrkOntoStack` | ross-kernel/src/syscall.rs:210-238 | brk(0x501000) replaces the lowest stack page by zeroes |
| `Heap.GrowAt` | ross-kernel/src/syscall.rs:219-233 | one round of the loop at any address below 4 GB: inside the window the page is mapped to the new frame and can be written to; outside, a word of the 2 MB page's first frame is overwritten and the page is still unmapped, whatever that frame is used for |
| `Heap.StrayUnmapped` | ross-kernel/src/paging.rs:164-232 | mapping a zeroed page below a 2 MB entry leaves the lookup of it empty, even if the overwritten frame is a page table of its own walk |
| `Heap.BrkPastWindow` | ross-kernel/src/syscall.rs:210-238 | the first page of brk(0x601000) with the break at 0x600000 is not mapped and a word of frame 1536 is overwritten |
| `Heap.SpawnAndRun` | ross-kernel/src/task.rs:214-335 | from a program file to any run of its calls and of its user-mode stores outside slot 511: if it has a loadable segment the run is performed as stated for it, heap and stack can be written to throughout, other spaces keep their windows, and the heap starts in the window only then |
| `Heap.BootSpawnRun` | ross-kernel/src/paging.rs:46-87 | the same from boot on, with the kernel alias working in the process's address space and its stack open to stores |
| `Heap.SpawnAndGrow` | ross-kernel/src/syscall.rs:210-238 | after spawning, the first page the heap is given memory for is mapped if and only if the program has a loadable segment |
| `Scheduler.RoundRobin.PickNext` | ross-kernel/src/task.rs:176-211 | one timer step of the state machine and the stack pointer and page tables to go on with |
| `Scheduler.RoundRobin.Spawn` | ross-kernel/src/task.rs:172-174 | a new ready task with a fresh id joins the end of the queue |
| `Scheduler.RoundRobin.SysExit` | ross-kernel/src/syscall.rs:196-207 | the current task is marked dead |
| `Scheduler.RoundRobin.Handle` | ross-kernel/src/task.rs:168-211 | any sequence of events is a run of the state machine |
| `Scheduler.RunSound` | ross-kernel/src/task.rs:168-211 | in every run waiting tasks are ready, only the current one is running or dead, every task is there once, and TSS.rsp0 and CR3 belong to the current task |
| `Scheduler.BootRunSound` | ross-kernel/src/task.rs:150-211 | the same for every run from boot |
| `Scheduler.MovesUp` | ross-kernel/src/task.rs:176-211 | a waiting task moves up one place per tick, whatever is added or dies |
| `Scheduler.Turn` | ross-kernel/src/task.rs:176-211 | the task at position i becomes current at the (i+1)-th tick |
| `Scheduler.NotBefore` | ross-kernel/src/task.rs:176-211 | and at no earlier one |
| `Scheduler.BackAgain` | ross-kernel/src/task.rs:176-211 | a preempted task is back after as many ticks as tasks were waiting, at the stack pointer it was interrupted at |
| `Scheduler.Conserved` | ross-kernel/src/task.rs:168-211 | over every run: live tasks plus those that exited are the initial ones plus those created, as multisets |
| `Scheduler.TickKeepsLive` | ross-kernel/src/task.rs:176-211 | a tick keeps all live tasks and drops a dead one |
| `Scheduler.ResumedExactly` | ross-kernel/src/task.rs:176-211 | every tick of every run resumes the chosen task at the stack pointer of its last interruption, under its own page tables; with nothing to run it goes on as before |
| `Scheduler.ResumedAsCreated` | ross-kernel/src/task.rs:176-211 | every tick of every run resumes the chosen task under the page tables it was created with, and a user task with its own kernel stack for the next interrupt |
| `Scheduler.BootTaskTables` | ross-kernel/src/task.rs:150-211 | over every run from boot the boot task is resumed under the kernel's page tables |
| `KeyRing.Always` | ross-kernel/src/kbuf.rs:14-35 | the ring invariant holds under every interleaving of the atomic steps |
| `KeyRing.PoppedIsPrefix` | ross-kernel/src/kbuf.rs:14-35 | popped bytes are a prefix of accepted ones, at most 255 behind |
| `KeyRing.NeverOverwrites` | ross-kernel/src/kbuf.rs:19-19 | the producer's store leaves every unread byte in place |
| `KeyRing.DropsOnlyWhenFull` | ross-kernel/src/kbuf.rs:17-22 | a push that has loaded HEAD gives up if and only if 255 bytes are unread when it loads TAIL |
| `KeyRing.NoneOnlyWhenEmpty` | ross-kernel/src/kbuf.rs:28-31 | a pop that has loaded TAIL returns nothing if and only if nothing is unread when it loads HEAD |
| `KeyRing.PushTaken` | ross-kernel/src/kbuf.rs:14-23 | a push by an idle producer, with any steps of the consumer before, between and after its four: the byte is taken up if and only if fewer than 255 are unread when TAIL is loaded |
| `KeyRing.PopTaken` | ross-kernel/src/kbuf.rs:27-35 | a pop by an idle consumer, with any steps of the producer in between: it takes the oldest unread byte if there is one when HEAD is loaded, and nothing otherwise |
| `KeyRing.WholeCalls` | ross-kernel/src/kbuf.rs:14-35 | the same for uninterrupted calls, whatever the other side is in the middle of |
| `KeyRing.PopsOldest` | ross-kernel/src/kbuf.rs:32-34 | the byte a pop has read is the oldest unread one until the pop completes |
| `KeyRing.RingIsQueue` | ross-kernel/src/kbuf.rs:14-35 | at every moment the ring denotes the accepted bytes not yet popped |
| `KeyRing.Ring.Push` | ross-kernel/src/kbuf.rs:14-23 | uninterrupted: appends to the contents, or drops the byte when 255 wait; it is the run of the producer's four steps |
| `KeyRing.Ring.Pop` | ross-kernel/src/kbuf.rs:27-35 | uninterrupted: takes the oldest byte; it is the run of the consumer's four steps |
| `Ustar.ReadArchive` | ross-kernel/src/ramfs.rs:66-105 | the loop computes the archive's files, or the panic on a member that runs past the end |
| `Ustar.ReadsWhatWasWritten` | ross-kernel/src/ramfs.rs:66-105 | reading what the writer wrote gives every member in order with its contents, without "./" in front and without root entries, whatever the other header fields hold and however spaces, digits and NULs lie in the size field |
| `Ustar.RoundTripIffPlain` | ross-kernel/src/ramfs.rs:77-95 | the round trip is exact if and only if no name is empty, "." or starts with "./" |
| `Ustar.DotSlashDropped` | ross-kernel/src/ramfs.rs:77-95 | a member "./n" is read as the file n, and not at all if n is empty or "." |
| `Ustar.ValidIsEncoded` | ross-kernel/src/ramfs.rs:77-77 | exactly the UTF-8 encodings of strings of Unicode scalar values are taken as names |
| `Ustar.GarbledSkipped` | ross-kernel/src/ramfs.rs:77-90 | a member whose name field is not valid UTF-8 is passed over, whatever its contents |
| `Ustar.SignedSize` | ross-kernel/src/ramfs.rs:83-84 | a plus sign in front of the octal digits changes nothing; any other byte among them makes the size 0 |
| `Ustar.DotSlashLost` | ross-kernel/src/ramfs.rs:77-80 | "./a" comes back as "a" |
| `Ustar.OctalRoundTrip` | ross-kernel/src/ramfs.rs:83-84 | octal sizes below the field's limit read back |
| `Ustar.Blocks` | ross-kernel/src/ramfs.rs:101-101 | the least multiple of 512 not below the size |
| `Ustar.ReadFile` | ross-kernel/src/ramfs.rs:40-48 | the buffer's front becomes the file's bytes from the offset on, as many as exist and fit; its rest is unchanged |
| `Ustar.FindFile` | ross-kernel/src/ramfs.rs:118-125 | the first file of that name |

## Left out

- FatNode.Fat32Node.Write: after a device failure it is not claimed which of the data was stored, nor that the record agrees with the node.
- FatNode.Fat32Node.Write: several live nodes for one file are not modelled; each caches its own size and first cluster.
- FatDriver.CreateIn: directories with deleted slots are excluded by `DirOk`, and names that cannot be found again by its precondition; what creation does there is `DirSpec.FilledListing` and `AbstractDir.CreatedIsFound`.
- FatRuns.RunAll: runs are of findable names and of writes that end below 2^32 (beyond, `FatDriver.WriteOpened` says what happens), and a file that is held is not opened a second time.
- Heap.HeapTask.SysMmap: the scheduler lock released during the call, and other tasks running meanwhile, are not modelled.
- Heap.HeapTask.SysBrk: heaps that start at 0 are excluded by `Valid` and addresses above 0x600000 by the precondition, because a page there cannot be mapped (`Heap.GrowAt`).
- Heap.HeapTask.Run: ends at a call that would leave the window (`Heap.GrowAt`), at a store that faults, and at a store through slot 511 (`UserImage.IsolationIff`).
- Heap.SpawnAndRun: the same stores end the run.
- Heap.Extend: the same addresses as for `Heap.HeapTask.SysBrk` are excluded.
- Heap.AllocAnon: the same addresses as for `Heap.HeapTask.SysBrk` are excluded.
- Heap.GrowAt: addresses from 4 GB on are excluded.
- Paging.Machine.MapUserPage: frames that are not page-aligned and flags beyond the low twelve bits, which no caller passes, are excluded; for a 2 MB page above 2 GB, whose frames the kernel alias does not reach, the word is taken to go where the entry points.
- Loader.Spawn: segments outside 0x400000 to 0x4FFFFF or reaching beyond the file are excluded; execution rights are not modelled (the kernel sets no such bit).
- Loader.LoadOne: the same segments are excluded.
- Loader.LoadProgram: the same segments are excluded.
- Loader.MapStack: stack pages are not zeroed by the code, so their contents are not claimed.
- Loader.Spawn: exhausted memory is one outcome, whether the code returns an error or panics; the file itself is a parameter, not opened by path.
- AddressSpace.CreateUserAddressSpace: a failure stands for the kernel's panic, and only the allocator's soundness is claimed then.
- KeyRing.Always: atomics are sequentially consistent steps; weaker memory orders are not modelled.
- Scheduler.RoundRobin.Spawn: the initial stack frame and the wrap-around of the id counter are not modelled.
- readdir, subdirectory creation, path splitting and mounting of several file systems: they would only add easy members.
- AHCI registers, command tables and polling: only the sector transfer contract is kept.
- PCI, interrupt controllers, timers, serial line, SMP start-up, descriptor tables and inline assembly: hardware access.
- Boot loader, shell, framebuffer, fonts, scancode translation, ACPI scan, file-descriptor table, message queue and kernel heap wrapper.

Where documentation and code disagree the code is followed: the user stack is at 0x500000,
not at 0x700000000000 (ross-kernel/src/task.rs:315-317); the kernel alias starts at
0xFFFFFFFF80000000, not at 0xFFFF800000000000 (ross-kernel/src/paging.rs:4,40); the
shared kernel entries carry the user flag, although architecture/architecture.md:67 calls
them supervisor-only, with the consequence stated by `UserImage.IsolationIff`.
