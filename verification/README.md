# Verification of the CaribeOS RV32 boot chain

A Dafny model of the parts of the CaribeOS runtime that decide whether a machine boots from the right
bytes: the host tools that write an HFS+ image, the booter that reads it, the virtio disk driver between
them, the ELF loader and the memory map it hands over, the device tree walkers and editor, and the stage-0
kernel's system calls and page tables. Code that works in place is modelled in place, with loops and
invariants; each loop is proved against a specification, and the theorems are about the specifications.

## How it is organised

| files | what they model |
|---|---|
| `HfsExtents`, `HfsBitmap`, `HfsForkRecord`, `HfsCatalog`, `HfsVolume`, `HfsFormat`, `HfsReplace`, `HfsImage` | the image tool: fork reads and writes, allocation bitmap, catalog scan, replacing a file |
| `HfsCreate`, `HfsCreateVolume`, `HfsCreateFile`, `HfsCreateTouch`, `HfsCreateRoot` | the tool that adds a file to the root folder |
| `HfsBooter`, `HfsBootCatalog`, `HfsBoot`, `HfsRoundTrip`, `HfsCreateBoot` | the boot-time reader, and host and booter together |
| `HfsWitness`, `HfsFolderWitness`, `HfsShortDisk` | small volumes that meet the assumptions, one that loses a folder, and a disk that is mounted wrongly |
| `ElfLoader`, `ElfFormat`, `MemoryMap`, `Handoff` | loading the kernel and describing memory to it |
| `VirtioBlk`, `VirtioProgress`, `QueueDisk` | the split queue: driver and device as one interleaved state machine, and as the booter's disk |
| `Fdt`, `FdtTree`, `FdtDeep`, `FdtChosen`, `FdtWalk`, `FdtEdit`, `FdtFormat` | device tree blobs: two readers and the in-place editor |
| `UserMemory`, `KernelWords`, `ProcFs`, `ProcPaths`, `Stage0Calls`, `Stage0Traps`, `Stage0Exact`, `Stage0Session`, `Stage0`, `Sv32` | the stage-0 kernel: memory with the kernel's own words in it, system calls, /proc, traps, page tables |
| `Console` | the booter's line editor and history |
| `Bytes`, `Layout`, `Blocking`, `ForwardCopy`, `Machine` | byte fields, packed structures by field name, block arithmetic, overlapping copies, 32-bit words |

`WellFormed` in `HfsVolume` is the notion everything about the image rests on: the header agrees with the
volume, every file the scan can reach is listed, the header block, the allocation file, the catalog and all
listed files own disjoint blocks that are marked used, and the stored free count is the number of clear bits.

In `Stage0Calls` memory is all 2^32 bytes, and the kernel's six variables and the saved trap frame are words in it. `Valid`
is the invariant of those words and of three histories: mappings, bytes read, entries listed.

## What the proofs found

- Stage 0: only mremap, madvise, munmap and mprotect check a range; every other call stores where its pointer says. The
  invariant and the frame are kept when the stores miss the kernel's words (`RunLaw`), and `PutExact`, `MissesExact` and
  `TrapExact` say exactly when. `CursorOverwritten` is a run on which they are not: mmap then returns 0x81c8135a.
- `CreateRootFile`: the space check accepts a leaf that keeps fewer than eight free bytes. The scan reads slot 0, which
  points at the free space, so every later lookup of the host raises; the booter still finds and reads the file. The exact
  bound is proved, and `SmallVolume` has volumes on both sides of it.
- `CreateRootFile`: the name of a root folder is not refused, and the new file then hides the whole folder. `PathKeptExact`
  says exactly which paths are lost; `HideFolder` mounts a volume, creates the file and loses one.
- `CreateRootFile`: an error after the bitmap write (a counter overflow, a name that is not ASCII, a full leaf) leaves the
  run marked but owned by nobody (`LeakWitness`). Everything else stays intact.
- `CreateRootFile`: the id of a new file is taken from, and its successor written to, offset 60 of the volume header. The
  next catalog id is at offset 64; at 60 is the default clump size of data forks. `NextIdNeverMoves` says exactly when the
  file gets the id the volume has next.
- Both scans read the offset table from its free-space entry on and stop one short, so record 0 of a leaf is never
  looked at (`FirstRecordUnseen`, `BootFirstUnseen`): a leaf with one record has none for them.
- `/proc/self` is listed with inode 6 and reported with inode 5 (`SelfDiffers`); the six regular entries agree (`ListedOpens`).
- Booter: a read of more than one block into the bounce buffer leaves other bytes than asked for. Which ones, and exactly
  when they are right all the same, is proved for every request. The mount is such a read on a volume with blocks below 4096
  bytes: it takes node size and leaf range from the block byte 4095 of the catalog lies in (`MountShort`).
- Booter: a reservation that starts at address zero or ends above 0xFFFFF000 is dropped. An ELF image with a segment at
  address zero therefore leaves its own pages marked free.
- Device trees: the console's writer and the booter's reader look for the boot arguments in different places; `SameSpot` is
  exactly where they meet, and `ApartWitness` has trees where they do not.
- `fdt_count_cpus` counts every tree of some depth right exactly up to 32 levels. Deeper trees lose the processor nodes that
  share a flag; on trees in the specification's order that is all they lose (`DeepExact`).
- Page tables: the RAM loop of the identity map does not end for a RAM end above 0xFFC00000 plus the start's offset in its
  superpage. An entry made from an address beyond the first 4 KiB of a superpage faults instead of mapping; this holds for a
  device and for all of RAM alike.

## Model

| member | source | states |
|---|---|---|
| `HfsExtents.LookupBlock` | scripts/update-hfs-kernel.py:121-129 | the walk down the extents finds exactly the blocks of the flattened extent list, and finds nothing exactly when the logical block is past its end |
| `HfsExtents.NonEmptyBlocks` | scripts/update-hfs-kernel.py:85-90 | dropping zero-count extents leaves the flattened block list alone |
| `HfsExtents.PhysInjective` | scripts/update-hfs-kernel.py:119-132 | with no block listed twice, different logical bytes live at different image bytes |
| `HfsExtents.ReadFork` | scripts/update-hfs-kernel.py:116-135 | terminates; raises exactly when the extents do not cover the range; otherwise returns the bytes of `[off, off+size)` the image has, which is all of them when the image holds the blocks |
| `HfsExtents.WriteFork` | scripts/update-hfs-kernel.py:137-158 | terminates; raises exactly when the extents do not cover the range, after writing what fits; the image becomes the byte-by-byte write through the extents, growing where it is too short |
| `HfsExtents.ExistingAll` | scripts/update-hfs-kernel.py:74-76 | nothing is missing from a read when the image holds the blocks of the fork |
| `HfsExtents.StretchInside` | scripts/update-hfs-kernel.py:78-80 | and a write then leaves the length of the image alone |
| `HfsExtents.ScatterView` | scripts/update-hfs-kernel.py:137-158 | seen through the fork, the write replaces `[off, off+len)` and nothing else |
| `HfsExtents.ScatterOther` | scripts/update-hfs-kernel.py:137-158 | a write through one fork leaves every fork with other blocks as it was |
| `HfsExtents.ScatterMisses` | scripts/update-hfs-kernel.py:137-158 | an image byte the range does not reach is unchanged |
| `HfsExtents.WriteThenRead` | scripts/update-hfs-kernel.py:116-158 | reading back what was written gives the data |
| `HfsBitmap.BitWithBit` | scripts/update-hfs-kernel.py:165-179 | setting one bit of a byte changes that bit and no other |
| `HfsBitmap.SetUsed` | scripts/update-hfs-kernel.py:173-179 | setting one block used or free leaves the status of every other block alone, MSB first |
| `HfsBitmap.ByteBits` | scripts/update-hfs-kernel.py:165-171 | the eight blocks of a bitmap byte are its binary digits, the first the most significant |
| `HfsBitmap.FirstFreeBehind` | scripts/update-hfs-kernel.py:181-197 | over the byte 0x80 the first free block is block 1 |
| `HfsBitmap.FindFreeRun` | scripts/update-hfs-kernel.py:181-197 | exact first fit: the least start of a clear run of the wanted length (one block for zero); otherwise no run, or the index error exactly when the bitmap ends before the volume |
| `HfsBitmap.MarkBlocks` | scripts/update-hfs-kernel.py:269-273 | afterwards exactly the blocks of the extents have the new status |
| `HfsBitmap.MoveConserves` | scripts/update-hfs-kernel.py:269-277 | taking and releasing blocks moves the number of clear bits by exactly their numbers |
| `HfsForkRecord.ForkRoundTrip` | scripts/update-hfs-kernel.py:82-90 | a fork record written with up to eight extents decodes to the size and the non-empty extents, and holds the clump field and the block count |
| `HfsImage.ForkFrom` | scripts/update-hfs-kernel.py:82-90 | the loop over eight slots decodes the specified fork |
| `HfsImage.PutForkRecord` | scripts/update-hfs-kernel.py:287-295 | the sequence of puts leaves exactly the encoded fork record in the node, clump field kept |
| `HfsImage.AllocatedBlocks` | scripts/update-hfs-kernel.py:48-50 | the sum of the counts is the length of the flattened block list |
| `Blocking.CeilDivBlocks` | scripts/update-hfs-kernel.py:31-32 | the rounded quotient is the least number of blocks that hold the payload |
| `HfsImage.TreeHeader` | scripts/update-hfs-kernel.py:104-114 | leaf range and node size as the B-tree header gives them, with the fallbacks for zero and for an inverted range |
| `HfsVolume.HostRangeNodes` | scripts/update-hfs-kernel.py:111-114 | a header with a leaf range makes the scan visit that range, and one without makes it visit every node but the header node |
| `HfsFormat.HeaderRead` | scripts/update-hfs-kernel.py:92-102 | on a volume header laid out as Technical Note TN1150 has it the tool takes signature, sizes, free count and the two forks from the fields of those names |
| `HfsFormat.TreeRead` | scripts/update-hfs-kernel.py:104-110 | the same for the header node of the catalog: kind, record count, node size and leaf range |
| `HfsFormat.KeyRead` | scripts/update-hfs-kernel.py:216-224 | a catalog key laid out as the note has it matches by parent and name, a character that is not ASCII read as a question mark |
| `HfsFormat.LookupTypes` | scripts/update-hfs-kernel.py:236-251 | a lookup starts in folder 2, goes through folder records (type 1) by their ids and ends in a file record (type 2) |
| `HfsFormat.FirstRecordUnseen` | scripts/update-hfs-kernel.py:213-233 | a hit of the scan is never record 0 of its leaf, whose offset stands in the last two bytes of the node |
| `HfsFormat.LoneRecordUnseen` | scripts/update-hfs-kernel.py:213-233 | so the only record of a leaf is found under no name |
| `HfsImage.ScanLeaf` | scripts/update-hfs-kernel.py:213-233 | the loop over a node agrees with the recursive scan, including where it raises |
| `HfsImage.HFSPlusImage.Mount` | scripts/update-hfs-kernel.py:92-114 | for every image: mounts exactly on a complete header with a good signature and a block size, a covered header node and enough of its bytes; then holds the fields of both |
| `HfsImage.HFSPlusImage.ScanChild` | scripts/update-hfs-kernel.py:206-234 | the loop over the leaf range is the recursive scan of the catalog fork |
| `HfsCatalog.SplitParts` | scripts/update-hfs-kernel.py:238 | splitting at slashes and dropping empty strings gives the components of the path |
| `HfsImage.HFSPlusImage.FindFile` | scripts/update-hfs-kernel.py:236-251 | the loop over components is the recursive lookup: the record of a file, or the error and its kind |
| `HfsCatalog.FindOutside` | scripts/update-hfs-kernel.py:206-251 | rewriting a record window the scan does not read leaves every path lookup as it was |
| `HfsImage.FoundListed` | scripts/update-hfs-kernel.py:253-256 | the record a path leads to is one of the listed files |
| `HfsImage.HFSPlusImage.WriteAllocationBitmapAndHeader` | scripts/update-hfs-kernel.py:199-204 | the free count and the whole bitmap are stored, and nothing else |
| `HfsReplace.BitmapEffect` | scripts/update-hfs-kernel.py:199-204 | the new bitmap and free count read back, and only the header block and the allocation file changed |
| `HfsImage.HFSPlusImage.WriteDataAndRecord` | scripts/update-hfs-kernel.py:282-296 | payload, zero tail and record are stored one after the other, and nothing else |
| `HfsReplace.DataEffect` | scripts/update-hfs-kernel.py:282-285 | seen through the extents: the payload, zeros up to one block behind it or as far as the extents reach, and behind those the old bytes; nothing outside the extents |
| `HfsReplace.ReplaceInPlace` | scripts/update-hfs-kernel.py:282-297 | on a well-formed volume a payload that fits leaves it well formed; the file holds payload, zero tail and old bytes as `Overlaid` says, its record the new size and block count over the same extents; header, bitmap, free count, every other file and path, and every byte outside the file and the catalog stay |
| `HfsImage.HFSPlusImage.TakeRun` | scripts/update-hfs-kernel.py:264-273 | a run is found exactly when one exists, it is the first one, and the marked bitmap differs in the new run and the old extents only |
| `HfsReplace.FreeAfterMove` | scripts/update-hfs-kernel.py:267-278 | the stored free count stays the number of clear bits when a file moves |
| `HfsReplace.ReplaceMoved` | scripts/update-hfs-kernel.py:259-297 | a file that moves: it goes to the first free run, holds the payload and zeros and nothing else, its old blocks are free and the run used, the free count is conserved and stored, and no byte outside header, bitmap, run and catalog changes |
| `HfsImage.HFSPlusImage.GrowFile` | scripts/update-hfs-kernel.py:259-297 | grows exactly when there is a free run; reports what the run holds; otherwise nothing changed |
| `HfsImage.HFSPlusImage.ReplaceFile` | scripts/update-hfs-kernel.py:253-297 | succeeds exactly when the path leads to a file record inside its node and the payload fits or may grow into a free run; on an error image and free count are untouched; on success the volume is well formed, every byte of the file, its record, the header and the bitmap are stated, the number returned is what its extents hold, all other files keep their bytes and all lookups their answers |
| `HfsCreate.BuildRecord` | scripts/hfs-create-root-file.py:44-78 | the record reads back as a child of the root with the name, the file type, the id, the fork, the block count and mode 0100755, and zeros elsewhere |
| `HfsFormat.FileWritten` | scripts/hfs-create-root-file.py:63-76 | by the fields of a file record in Technical Note TN1150: type 2, the id, mode 33261 and the data fork |
| `HfsCreate.InsertedTable` | scripts/hfs-create-root-file.py:124-141 | after the insertion the table has one more record: the old slots at unchanged offsets, the new one in front, the new free offset in slot 0 |
| `HfsCreate.ScanInserted` | scripts/hfs-create-root-file.py:126-141 | with at least eight free bytes left the leaf finds the new file under its name and answers every other key as before |
| `HfsCreate.ScanInsertedFull` | scripts/hfs-create-root-file.py:134-141 | with fewer than eight free bytes left, which the space check lets through, every later scan of the leaf raises |
| `HfsCreateFile.ReadTable` | scripts/hfs-create-root-file.py:124-127 | for every node: reads the offset table, and raises exactly when a word of it lies outside the node |
| `HfsCreateFile.InsertRecord` | scripts/hfs-create-root-file.py:128-141 | for every node: inserts exactly when the record and the longer table fit; rewriting the whole table leaves the old words as they were |
| `HfsCreateVolume.MarkedWellFormed` | scripts/hfs-create-root-file.py:97-102 | marking a free run keeps the volume well formed with the free count lowered by the run, before any file owns it |
| `HfsCreateFile.StageData` | scripts/hfs-create-root-file.py:104-108 | payload and padding fill exactly the run and touch no owned block |
| `HfsCreateFile.StageHeader` | scripts/hfs-create-root-file.py:110-117 | the counters written over the header keep the free count just stored |
| `HfsCreateFile.StageLeaf` | scripts/hfs-create-root-file.py:119-142 | the new leaf adds one file with the run as its blocks; every listed file keeps record and bytes |
| `HfsCreateFile.LookupsCreated` | scripts/hfs-create-root-file.py:119-142 | for every path: with at least eight bytes left the lookup is that of the old catalog with the file added; with fewer every lookup fails |
| `HfsCreateFile.AfterLaws` | scripts/hfs-create-root-file.py:119-142 | every lookup: one that never asks for the new name in the root leads where it led; one that ends by asking leads to the new file; one that has to go on from there fails |
| `HfsCreateFile.KeptExact` | scripts/hfs-create-root-file.py:89-94 | when the name led to no file, a path that led to one is kept exactly when its lookup never asks for the name |
| `HfsCreateRoot.StripParts` | scripts/hfs-create-root-file.py:86-88 | the stripped path is a bare name exactly when the path has one component |
| `HfsCreateRoot.WriteRun` | scripts/hfs-create-root-file.py:96-108 | takes the first free run, marks its blocks and no others, and fills it; or leaves the image alone when there is none |
| `HfsCreateRoot.WriteCounters` | scripts/hfs-create-root-file.py:110-117 | file count and next id go up by one, ids start at 20, every other byte of the header stays, and overflow raises before the write |
| `HfsCreateRoot.StoreRecord` | scripts/hfs-create-root-file.py:119-142 | for every first leaf: stores the record exactly when it is a covered leaf with a readable table, the name packs and the record fits, and changes only that leaf; on a leaf of the expected shape this adds one file, and every lookup is stated |
| `HfsCreateRoot.CreateRootFile` | scripts/hfs-create-root-file.py:81-142 | creates exactly under the stated condition, whatever the shape of the first leaf; errors before the bitmap write change nothing; later errors leave a well-formed volume with the run lost and every file and lookup intact; success takes the first free run and no other block, fills it, counts the file, moves the next id behind the one given out and stores the record; on a leaf of the expected shape this adds one file with the payload, conserves the free count, keeps all other files and fixes every lookup |
| `HfsCreateTouch.IdsCountUp` | scripts/hfs-create-root-file.py:110-117 | over any number of creations in a row the ids are consecutive and the file count goes up by one each |
| `HfsCreateRoot.CreateTwo` | scripts/hfs-create-root-file.py:81-142 | two creations: the second id is the first plus one, and two files are counted |
| `HfsFormat.NextIdNeverMoves` | scripts/hfs-create-root-file.py:15-16 | by the names of the header fields: the id given out comes from the default clump size of data forks, which becomes the id plus one, and the next catalog id never moves; the file gets the next catalog id exactly when the two fields say the same |
| `HfsCreateRoot.PathKeptExact` | scripts/hfs-create-root-file.py:81-142 | a path that led to a file is kept by a creation exactly when eight bytes are left in the leaf and its lookup never asks for the root child of the new name; otherwise it fails |
| `HfsFolderWitness.HideFolder` | scripts/hfs-create-root-file.py:81-142 | a volume with a folder k in the root and a file k/f: mounted, k/f is found; the creation of k succeeds; k/f is lost |
| `HfsWitness.LeakWitness` | scripts/hfs-create-root-file.py:96-102 | a volume and a name that is not ASCII: the run is taken and the creation fails |
| `HfsBooter.CopyBytes` | booter/hfsplus_boot.c:83-90 | the forward copy delivers the source between two buffers; inside one buffer it is the byte-by-byte copy of `ForwardCopy` |
| `HfsBooter.ForkRead` | booter/hfsplus_boot.c:343-403 | succeeds exactly when the fork is non-empty, the offset inside it and every needed block covered and readable at its 32-bit sector number; then the destination holds exactly the clamped range, also when it is the bounce buffer and the request stays in one block; for a longer request into the bounce buffer it holds the bytes `Origin` names |
| `HfsBooter.SeenFits` | booter/hfsplus_boot.c:385 | what the booter reads is the fork itself when no sector number leaves 32 bits |
| `HfsBooter.AliasedReadRight` | booter/hfsplus_boot.c:343-403 | such a request is right, as a whole, exactly when every byte asked for equals the byte that ends up in its place |
| `HfsBooter.AlignedReadRight` | booter/hfsplus_boot.c:343-403 | from the start of a block: all bytes behind the first block are right, the first block is the last one read, so the whole is right exactly when those two are equal |
| `HfsBooter.KernelNodeBlock` | kernel_xnu_entry.c:2700-2734 | the kernel lookup succeeds exactly for block-sized nodes in a covered block whose 32-bit number is not zero, and names that number; it is the block that holds the node unless the sum wrapped |
| `HfsBootCatalog.BootNameMatches` | booter/hfsplus_boot.c:288-301 | against a target of at most 127 bytes the cut name matches exactly when the first 127 characters do |
| `HfsBootCatalog.ScansAgree` | booter/hfsplus_boot.c:609-685 | on leaves both read alike: a miss of the host is a miss of the booter, and a hit of the wanted kind is the same hit |
| `HfsBootCatalog.FindsAgree` | booter/hfsplus_boot.c:687-742 | a file the host finds the booter finds in the same place, and a path that runs out for the host runs out for the booter |
| `HfsBoot.SplitNext` | booter/hfsplus_boot.c:303-324 | yields the components of the path one by one, each cut at 127 characters |
| `HfsBoot.ScanBuffer` | booter/hfsplus_boot.c:627-679 | one node in the bounce buffer scanned as specified |
| `HfsBoot.Booter.Mount` | booter/hfsplus_boot.c:551-607 | mounts exactly on a readable good header; the B-tree fields come from the catalog block that the first 4096 bytes end in, or are the defaults when that read fails |
| `HfsBoot.BootRangeNodes` | booter/hfsplus_boot.c:529-549 | the scan visits the header range when it lies in the tree, and otherwise every node but the header node |
| `HfsFormat.BootFirstUnseen` | booter/hfsplus_boot.c:634-660 | no hit of the booter is record 0 of its leaf either |
| `HfsBoot.BaseZero` | booter/hfsplus_boot.c:574-583 | that block is the first one exactly when those bytes fit one block |
| `HfsShortDisk.ShortDiskMisread` | booter/hfsplus_boot.c:574-583 | a disk with 2048-byte blocks whose header says 512-byte nodes and leaves from 1, and whose second catalog block, the one the fields are taken from, is zero |
| `HfsShortDisk.MountShort` | booter/hfsplus_boot.c:551-607 | the mount of that disk: 4096-byte nodes, and node 0 alone to look for leaves in |
| `HfsBoot.Booter.ScanChild` | booter/hfsplus_boot.c:609-685 | the loop over the leaves is the specified scan of the catalog bytes |
| `HfsBoot.Booter.FindFork` | booter/hfsplus_boot.c:687-720 | follows the path as specified and returns the fork of its file |
| `HfsBoot.Booter.ReadFile` | booter/hfsplus_boot.c:687-742 | reads the whole file exactly when it fits the cap and is readable |
| `HfsRoundTrip.BootableKept` | scripts/update-hfs-kernel.py:287-296 | a replacement keeps a volume bootable |
| `HfsRoundTrip.BootAt` | booter/hfsplus_boot.c:551-742 | the booter mounts a well-formed volume and reads the file its own lookup leads to |
| `HfsRoundTrip.BootFrom` | booter/hfsplus_boot.c:551-742 | on a bootable volume that is every file the host finds |
| `HfsRoundTrip.HostWritesBooterReads` | booter/hfsplus_boot.c:687-742 | after a successful replacement the booter mounts the image and reads exactly the payload and its size |
| `HfsCreateBoot.BootableCreated` | scripts/hfs-create-root-file.py:119-142 | creation with at least eight bytes left keeps a volume bootable, unless the new name is one the two programs read differently |
| `HfsCreateBoot.BootFindsCreated` | booter/hfsplus_boot.c:609-742 | whatever is left in the leaf, the booter finds the new file under its name |
| `HfsCreateBoot.HostCreatesBooterReads` | booter/hfsplus_boot.c:687-742 | after a successful creation the booter mounts the image and reads exactly the payload, also where every lookup of the host raises |
| `HfsWitness.GapsExist` | scripts/hfs-create-root-file.py:131-135 | leaves at both ends of the eight-byte rule: one record more leaves nothing, or 226 bytes |
| `HfsWitness.SmallVolume` | scripts/hfs-create-root-file.py:81-142 | a well-formed, bootable volume on which the creation of a file goes through, with any even number of bytes left from 0 to 226 |
| `Machine.PageUp` | booter/hfsplus_boot.c:134-137 | rounds up to a page, and to zero past the last page |
| `MemoryMap.ClipExact` | booter/hfsplus_boot.c:163-179 | what is kept of a request covers a RAM page exactly when the request does not start at zero, ends at or below 0xFFFFF000 and touches the page |
| `MemoryMap.InsertSorted` | booter/hfsplus_boot.c:181-184 | the insertion keeps the list sorted and adds one range |
| `MemoryMap.ReservedInsert` | booter/hfsplus_boot.c:155-185 | the shift loop is the specified clip and stable insertion |
| `MemoryMap.SweepTiles` | booter/hfsplus_boot.c:221-238 | the sweep tiles the rest of RAM with non-empty aligned entries, at most two a range and one more |
| `MemoryMap.SweepTyped` | booter/hfsplus_boot.c:221-238 | every page has the type of the first remaining range that covers it, or Conventional |
| `MemoryMap.Partition` | booter/hfsplus_boot.c:187-241 | the map tiles RAM without gap or overlap, in at most 2n+1 entries, typed by the first covering range in sorted order |
| `MemoryMap.ConventionalPage` | booter/hfsplus_boot.c:187-241 | a page is Conventional exactly when no honoured request touches it |
| `MemoryMap.TypeFrom` | booter/hfsplus_boot.c:187-241 | a page that is not free has the type of a request that touches it |
| `MemoryMap.PageTypes` | booter/hfsplus_boot.c:206-238 | type 7 exactly for pages none of the five areas touches, 1 where only firmware, booter or kernel lie, 2 where only device tree or initrd lie |
| `MemoryMap.MapAdd` | booter/hfsplus_boot.c:139-153 | appends one entry, or nothing for an empty range or a full table |
| `MemoryMap.BuildMap` | booter/hfsplus_boot.c:187-241 | the code builds that map for the five requests, in at most eleven entries, so the limit of sixteen drops nothing |
| `MemoryMap.ScanMap` | kernel_xnu_entry.c:2203-2231 | the accounting loop computes page sums, overlaps, lowest free start and highest end of the first sixteen entries |
| `MemoryMap.TilesAccounted` | kernel_xnu_entry.c:2209-2231 | over a tiling: no overlap, every page counted once, the highest end is the end |
| `ForwardCopy.CopyRight` | booter/hfsplus_boot.c:976-979 | a forward copy whose destination does not start inside its source delivers the original bytes |
| `ForwardCopy.CopySource` | booter/hfsplus_boot.c:393-395 | any forward copy in one memory: which original byte ends up where |
| `ForwardCopy.CopyExact` | booter/hfsplus_boot.c:976-979 | exactly when it delivers them: it is safe, or the source already repeats with the distance as its period |
| `ElfLoader.ReadHeaders` | booter/hfsplus_boot.c:927-954 | accepts exactly the supported headers whose program headers lie in the image, and snapshots them |
| `ElfFormat.EhdrRead` | booter/hfsplus_boot.c:883-951 | on a header laid out as the System V gABI has it: accepted exactly with the magic bytes, class, data, program header size, count and place it needs |
| `ElfFormat.PhdrRead` | booter/hfsplus_boot.c:906-915 | on a program header so laid out: type, file offset, virtual address and both sizes are the fields of those names |
| `ElfFormat.ElfRead` | booter/hfsplus_boot.c:953-954 | the loader sees exactly the segments the file describes, in order |
| `ElfLoader.LoadSegment` | booter/hfsplus_boot.c:957-981 | accepts exactly the valid segments and performs copy and zero fill |
| `ElfLoader.Untouched` | booter/hfsplus_boot.c:957-981 | memory outside the destinations never changes, whatever the overlaps |
| `ElfLoader.LoadRight` | booter/hfsplus_boot.c:957-981 | with destinations apart and no unread source clobbered, every segment ends with the original file bytes and zeros, even when the image or its headers are overwritten |
| `ElfLoader.HullLow` | booter/hfsplus_boot.c:971-972 | the least segment address |
| `ElfLoader.HullHigh` | booter/hfsplus_boot.c:973-974 | the highest segment end |
| `ElfLoader.LoadElf` | booter/hfsplus_boot.c:919-994 | succeeds exactly when header and all segments are valid and the hull is not empty; memory is that of the segments processed so far |
| `ElfFormat.LoadSmall` | booter/hfsplus_boot.c:919-994 | a file given by its 88 bytes, read to anywhere off its target: hull 0x80400000 to 0x80400008, four bytes of the file there, four zeros behind them, and no other byte changed |
| `Handoff.FreeExact` | booter/hfsplus_boot.c:187-241 | a byte is offered as free exactly when it is in RAM and no honoured request touches its page |
| `Handoff.RangeReserved` | booter/hfsplus_boot.c:155-241 | a range stays out of free memory exactly when it is honoured or the other requests cover all its pages |
| `Handoff.ZeroBasedHull` | booter/hfsplus_boot.c:163 | a kernel hull that starts at address zero leaves the kernel pages marked free: the failing family is not empty |
| `Handoff.Boot` | booter/hfsplus_boot.c:919-1025 | load, boot arguments and map as the code fills them |
| `Handoff.KernelNotFree` | booter/hfsplus_boot.c:1015-1025 | no byte the loader wrote is offered as free when the hull is honoured |
| `Handoff.OthersNotFree` | booter/hfsplus_boot.c:206-219 | nor any byte of OpenSBI, the booter, the device tree or the initrd |
| `Handoff.KernelScan` | kernel_xnu_entry.c:2203-2263 | the kernel finds no overlap, counts all pages, ends at the end of RAM and seeds its allocator with the lowest free byte |
| `Handoff.BootAndScan` | booter/hfsplus_boot.c:955-1025 | all of it composed: from the ELF image to the accounting, with every protected byte kept out of free memory |
| `VirtioBlk.DriverInv` | virtio_blk_legacy.c:245-321 | every step of the driver keeps the protocol invariant |
| `VirtioBlk.DeviceInv` | virtio_blk_legacy.c:259-317 | every step of a device that follows section 2.6 of VIRTIO 1.1, and so writes only buffers marked writable, keeps it, in any order of writes and with any failure |
| `VirtioBlk.RunInv` | virtio_blk_legacy.c:245-338 | the invariant holds at every point of every interleaved run |
| `VirtioBlk.AtMostOne` | virtio_blk_legacy.c:280-299 | at most one chain is outstanding, also across the 16-bit wrap |
| `VirtioBlk.BetweenCalls` | virtio_blk_legacy.c:257-299 | between calls the two ring indices agree and the device is at rest |
| `VirtioBlk.PublishedChain` | virtio_blk_legacy.c:248-286 | whenever the driver polls: a read-only header of sixteen bytes with type 0 and the sector, the writable buffer of the caller with its length, one writable status byte that holds 0xFF until the device answers |
| `VirtioBlk.NoEarlyTimeout` | virtio_blk_legacy.c:292-299 | a call gives up only after a hundred million looks at the used index |
| `VirtioBlk.LengthFits` | virtio_blk_legacy.c:269 | the 32-bit byte count of a request that fits memory does not wrap |
| `VirtioBlk.ReadReturnsSectors` | virtio_blk_legacy.c:245-338 | a call that returns 0 leaves exactly the requested sectors in the buffer and changes only buffer, header, status byte and rings |
| `VirtioProgress.EveryReadCanReturn` | virtio_blk_legacy.c:245-338 | from rest every request within the disk has a run that returns 0 |
| `QueueDisk.QueueSupplies` | booter/hfsplus_boot.c:333-341 | the replies of any run of the queue are those of a disk with some failing sectors: what the booter takes for granted of its disk |
| `QueueDisk.ServedExact` | booter/hfsplus_boot.c:343-403 | over the queue a fork read succeeds exactly when the extents cover it and no call for one of its blocks failed |
| `QueueDisk.QueuedForkRead` | booter/hfsplus_boot.c:343-403 | and then the destination holds the bytes of the disk behind the queue |
| `Fdt.SkipName` | booter/fdt_min.c:138-140 | moves past the name and its padding |
| `Fdt.StrEq` | booter/fdt_min.c:20-23 | true exactly for equal strings |
| `FdtTree.CountRight` | booter/fdt_min.c:177-228 | on every tree of at most 32 levels, with NOPs anywhere, the loop counts the nodes with a processor device_type |
| `FdtTree.DeepMiscount` | booter/fdt_min.c:196-204 | a tree of 33 levels with two processors is counted as one: the bound is tight |
| `FdtTree.BoundExact` | booter/fdt_min.c:177-228 | every tree up to a depth is counted right exactly when that depth is at most 32 |
| `FdtDeep.CountIs` | booter/fdt_min.c:177-228 | what the loop computes on a tree of any depth: a recursion over the tree that carries the stack of 32 flags |
| `FdtDeep.DeepExact` | booter/fdt_min.c:177-228 | on trees with properties first, of any depth: all processor nodes but those that get no flag of their own and find the shared one set; right exactly when there are none |
| `FdtChosen.ReadRight` | booter/fdt_min.c:127-174 | on every tree the loop finds the bootargs of the first chosen child of the root that has one |
| `FdtWalk.CountCpus` | booter/fdt_min.c:177-228 | the walk over the bytes is the loop over the encoded tokens; 0 without the magic |
| `FdtWalk.GetBootargs` | booter/fdt_min.c:116-175 | all return codes, and the string cut at a NUL, at the property length and at the capacity |
| `FdtWalk.CountTreeCpus` | booter/fdt_min.c:177-228 | for the blob of any tree: the count of `FdtDeep`; the number of processor nodes up to 32 levels |
| `FdtWalk.GetTreeBootargs` | booter/fdt_min.c:116-175 | the chosen node's arguments, for the blob of any tree |
| `FdtFormat.FlatBlob` | booter/fdt_min.c:127-140 | every terminated token stream that fits has a blob the readers read as that stream: the one written out by the token values and header fields of the Devicetree Specification |
| `FdtFormat.TreeFlattens` | booter/fdt_min.c:116-228 | so has every tree with plain names, and no edit of its boot arguments reaches a name |
| `FdtFormat.ReadSmall` | booter/fdt_min.c:116-228 | a tree with two processors, a device that is none and the arguments -v, flattened: the readers count two and return -v |
| `FdtEdit.EditEncoded` | booter/console.c:427-429 | as many bytes written over the data of a property, none of them in a name, change exactly that token of the stream |
| `FdtChosen.WriteRight` | booter/console.c:395-441 | for every tree: the writer edits the first bootargs that precedes the first child of a node named chosen, at any depth below the root, and only its data |
| `FdtChosen.ReadAfterWrite` | booter/console.c:395-441 | afterwards the reader returns the new data exactly where the two meet, and otherwise what it returned before |
| `FdtChosen.TidyMeets` | booter/console.c:395-441 | on trees with properties first and no nested chosen they meet whenever the reader finds anything |
| `FdtChosen.ApartWitness` | booter/console.c:395-441 | trees on which they do not meet: arguments behind a child, and arguments of a nested chosen |
| `FdtEdit.OverwriteBootargs` | booter/console.c:395-441 | all return codes; 1 exactly when the string fits, and then the data is replaced, and the blob encodes the stream with one property replaced when no property name reaches into it; otherwise the blob is unchanged |
| `FdtEdit.TreeEdited` | booter/console.c:395-441 | for every tree: the return code and the bytes that change; the edited blob is that of the same tree with only that data replaced, when no name reaches into it |
| `FdtEdit.SetThenGet` | booter/console.c:395-441 | set, then get, for every tree: the string comes back where reader and writer meet and the capacity exceeds it; otherwise the reader gives what it gave before |
| `UserMemory.UserStrEq` | kernel_xnu_entry.c:608-624 | true exactly when the user string is the text |
| `KernelWords.PutExact` | kernel_xnu_entry.c:626-674 | a store through a user pointer keeps the kernel's variables and frame exactly when each byte it puts on them is the byte already there |
| `KernelWords.MissesExact` | kernel_xnu_entry.c:626-674 | a range is harmless for all contents exactly when it misses them |
| `KernelWords.UserRangeMisses` | kernel_xnu_entry.c:847-853 | the range check accepts exactly the ranges inside the user window, and those miss them |
| `Stage0Calls.MmapLaw` | kernel_xnu_entry.c:1362-1388 | for all 2^32 lengths: a new zeroed aligned mapping at the cursor exactly when the rounded length is not zero and fits; otherwise nothing; its own store cannot hit the kernel |
| `Stage0.Kernel.Mmap` | kernel_xnu_entry.c:1362-1388 | does so in place, in every state, and keeps the invariant |
| `Stage0.MappingsApartAndReachable` | kernel_xnu_entry.c:1362-1388 | mappings of one run are disjoint and every byte of them is U-accessible in the stage-0 table |
| `Stage0.Kernel.OpenAt` | kernel_xnu_entry.c:1820-1886 | opens the file or directory the path names with its cursor at zero, and nothing else |
| `ProcPaths.OpenMeta` | kernel_xnu_entry.c:707-767 | the path table of stat and that of open name the same files |
| `ProcPaths.ListedOpens` | kernel_xnu_entry.c:855-907 | every regular entry getdents64 lists can be opened as /proc/ and its name, and both metadata calls report the inode listed for it and a regular file |
| `ProcPaths.SelfDiffers` | kernel_xnu_entry.c:709-716 | /proc/self is listed with inode 6 and reported with inode 5, and cannot be opened |
| `ProcPaths.ExeLink` | kernel_xnu_entry.c:717-722 | the link /proc/self/exe is as long as the path /kernel.elf |
| `ProcPaths.PathText` | kernel_xnu_entry.c:1835-1870 | each of the six paths leads to the text of that name |
| `Stage0Calls.ReadLaw` | kernel_xnu_entry.c:2003-2038 | the next bytes of the file, as many as asked for and left; what was read so far is always a prefix of the file; only the cursor word changes |
| `Stage0.Kernel.Read` | kernel_xnu_entry.c:2003-2038 | does so in place, in every state: the cursor is added to as memory has it after the copy |
| `Stage0Calls.CloseLaw` | kernel_xnu_entry.c:2040-2066 | the closed descriptor's words and history are reset; the other descriptor, the mappings and user memory stay |
| `Stage0.Kernel.Close` | kernel_xnu_entry.c:2040-2066 | does so in place, in every state |
| `ProcFs.CopyoutDirent` | kernel_xnu_entry.c:936-950 | stores exactly one directory record, padded to eight bytes |
| `ProcFs.DecodeRecords` | kernel_xnu_entry.c:855-907 | decoding by record length gives back exactly the entries, in order |
| `Stage0Calls.GetdentsLaw` | kernel_xnu_entry.c:1888-1938 | whole records that decode to the next entries, the most that fit; returns 0 exactly at the end of the directory or when the next record is longer than the buffer |
| `Stage0Calls.ListsAll` | kernel_xnu_entry.c:1888-1938 | over any sequence of buffers of at least 32 bytes every call before the end moves on, and nine calls list the directory |
| `Stage0.Kernel.Getdents` | kernel_xnu_entry.c:1888-1938 | the loop, in every state, rereading the cursor each turn |
| `ProcFs.CopyoutStat` | kernel_xnu_entry.c:784-795 | stores exactly the stat record |
| `ProcFs.StatFields` | kernel_xnu_entry.c:784-795 | a reader of the record finds device, inode, mode, links, size, block size and blocks where struct stat64 has them, and zeros elsewhere |
| `Stage0.Kernel.Fstat` | kernel_xnu_entry.c:1965-2001 | stores the record of the open file or directory, in every state |
| `Stage0.Kernel.FstatAt` | kernel_xnu_entry.c:1626-1660 | stores the record of the path, in every state |
| `Stage0Calls.FstatOfOpened` | kernel_xnu_entry.c:1965-2001 | fstat on a file or directory just opened reports what fstatat reports for its path |
| `ProcPaths.SizesAgree` | kernel_xnu_entry.c:707-767 | both report the length that reads add up to |
| `Stage0Traps.EnterLaw` | kernel_xnu_entry.c:284-305 | whatever the program did to its window, entering a trap keeps the variables and saves the frame |
| `Stage0Traps.CallLaw` | kernel_xnu_entry.c:992-2141 | a call whose stores miss the kernel's words keeps the invariant and the frame; mappings are only added, one per successful mmap |
| `Stage0Traps.TrapLaw` | kernel_xnu_entry.c:992-2141 | such a trap returns exactly for the known calls; in the frame only a0 changes and sepc advances by four |
| `Stage0Exact.TrapExact` | kernel_xnu_entry.c:992-2141 | for every trap into a call that stores through pointers: frame, variables and listing come out as intended exactly when every byte stored on the kernel's words, a0 aside, is the byte already there |
| `Stage0Exact.DentsExact` | kernel_xnu_entry.c:1888-1938 | a listing comes out right exactly when that holds at each turn of its loop |
| `Stage0Traps.WindowMisses` | kernel_xnu_entry.c:847-853 | stores into the user window miss the kernel's words |
| `Stage0Traps.RunLaw` | kernel_xnu_entry.c:992-2141 | over every run whose stores miss the kernel's words the invariant holds and mappings are never withdrawn |
| `Stage0Session.ReadsAll` | kernel_xnu_entry.c:2003-2038 | however a program cuts its reads, and whatever it does to its window in between, its buffers together receive the file from the cursor on: as much as asked for or all that is left |
| `Stage0Session.OpenAndRead` | kernel_xnu_entry.c:1820-2038 | system calls 56 and 63: the program that opens one of the six paths and reads gets the text of that name from its start |
| `Stage0Session.ReadAfterClose` | kernel_xnu_entry.c:2003-2066 | after system call 57 on descriptor 3 a read returns the error EBADF and stores nothing |
| `Stage0Session.OtherNumbers` | kernel_xnu_entry.c:992-2141 | system calls 61, 79, 80 and 222 are the listing, the two metadata calls and the mapping, on the registers of the Linux convention; the error codes by value |
| `Stage0Traps.CursorOverwritten` | kernel_xnu_entry.c:1791-1818 | from any state, four bytes of getrandom stored at the mapping cursor leave it unaligned and outside the window, and the next mmap returns it |
| `Stage0.Kernel.Dispatch` | kernel_xnu_entry.c:992-2141 | the dispatcher on the frame in memory is the specified step, in every state |
| `Stage0.Kernel.Serve` | kernel_xnu_entry.c:992-2141 | any run of traps is the specified run, and keeps the invariant when its stores miss the kernel's words |
| `Sv32.SuperEntry` | include/uapi/mmu.h:18-20 | an entry maps its superpage to itself when its address lies in the first 4 KiB, and faults otherwise |
| `Sv32.InstallIdentity` | booter/mmu_sv32.c:15-38 | the loops build the specified table, for every RAM start from which they end |
| `Sv32.InstallUserMmu` | kernel_xnu_entry.c:2285-2304 | the stage-0 table, device superpages over RAM |
| `Sv32.TableRight` | booter/mmu_sv32.c:15-38 | for every start, end, list of devices and address: identity with the intended permissions, global, accessed and dirty, or a fault; exactly the entries made from an address beyond the first 4 KiB fault |
| `Sv32.RamMapped` | booter/mmu_sv32.c:23-26 | every address of RAM that starts on a superpage maps to itself with read, write and execute, unless a device took its superpage |
| `Sv32.UserWindow` | kernel_xnu_entry.c:2297-2304 | U-mode reaches exactly 0x81000000 to 0x81400000, and that exactly when RAM starts on a superpage, reaches into it and no device lies there |
| `Sv32.NeverEnds` | booter/mmu_sv32.c:23 | a RAM end more than the start's offset in its superpage above 0xFFC00000 keeps the loop running for ever; at or below that it ends (`FillRam`) |
| `Console.RunSound` | booter/console.c:90-112 | in every run: at most 127 characters, recall position in range, escape state at most 2, remembered lines trimmed |
| `Console.RecentRight` | booter/console.c:90-100 | the remembered lines are the last eight accepted ones, right-trimmed, consecutive duplicates removed |
| `Console.Recall` | booter/console.c:101-107 | pressing up k+1 times on a fresh line shows the k-th newest line |
| `Console.LineTyped` | booter/console.c:285-299 | a line typed on a fresh line and ended with either Enter is remembered without the blanks and tabs at its end |
| `Console.Erased` | booter/console.c:298 | a character typed and erased, with either key, changes nothing |
| `Console.Arrows` | booter/console.c:285-295 | ESC [ A and ^P go one line up, ESC [ B and ^N one down |
| `Console.DownAfterUp` | booter/console.c:107-112 | down undoes up, and from the newest line leads to an empty one |
| `Console.LinesTyped` | booter/console.c:90-299 | after any lines typed the line is empty and the last eight are remembered, repetitions in a row once |
| `Console.LineEditor.HistStore` | booter/console.c:90-100 | the ring after storing a line is the specified list |
| `Console.LineEditor.RecallIndex` | booter/console.c:101-106 | index i recalls the i-th oldest line |
| `Console.LineEditor.RxChar` | booter/console.c:285-299 | one received character is one step of the specified editor |
| `Console.Session` | booter/console.c:278-299 | a whole stream, from a fresh console |

## Left out

- Printing, UART, PLIC, SBI calls, CSR access, `fence.i` and the final jump into the kernel.
- `fdt_find_reg_base`, the kernel's own processor probe, plist and flag parsing, console commands, ELF loading from the console.
- HFS+ key order, the alternate header, the journal: the tools do not maintain them.
- Files that are shorter than their geometry: Python would return short reads; `Geometry` asks for an image at least as long as the volume.
- HfsExtents.ReadFork: asks for a block size that is not zero, where Python raises an arithmetic error; `Mount` models that.
- HfsExtents.WriteFork: the same.
- HfsImage.HFSPlusImage.ReplaceFile: the stored block count is the exact quotient rounded up, where Python goes through a floating-point division; the two agree below 2^53.
- HfsCreateRoot.CreateRootFile: that the new file is found, and the other files and lookups kept, is stated for a first leaf of the expected shape (downward offset table, zeroed free space, records below it); of other leaves only what bytes change.
- HfsCreateRoot.StoreRecord: the same.
- HfsBooter.ForkRead: asks for a block size that is a multiple of 512; with any other the code copies bytes it has not read.
- HfsBoot.Booter.Mount: the same.
- HfsBoot.Booter.ScanChild: asks for a catalog whose blocks are on the disk and readable, and whose nodes each lie in one block; across blocks the node in the bounce buffer is the one `Origin` describes. Where a result depends on bytes behind the node it is not stated.
- HfsBoot.Booter.FindFork: the same.
- HfsBoot.Booter.ReadFile: the same.
- HfsBootCatalog.ScansAgree: where the host raises, or hits a record of the other kind, the booter goes on and may find one; nothing is stated there but for the leaf `BootFindsCreated` is about.
- VirtioBlk.ReadReturnsSectors: memory accesses are sequentially consistent, as the fences in the code intend; a run ends for the driver at its first timeout; interrupt status registers and the byte layout of the rings are not modelled.
- ElfLoader.LoadElf: the loader's own code, stack and header copies are taken to lie outside the memory it loads into.
- Handoff.Boot: the entry structure's bytes are not modelled; the kernel reads the entries as values. The map request for the booter's image is a parameter.
- FdtWalk.CountCpus: the blob must be a well-formed token stream, since the C code has no bounds; the count is not cut to 32 bits.
- FdtEdit.OverwriteBootargs: the same.
- FdtEdit.SetThenGet: asks that no property name reaches into the data that is edited.
- FdtDeep.DeepExact: asks for trees with properties first; for others `CountIs` says what is counted.
- QueueDisk.QueueSupplies: asks that no sector was read by one call and refused to another; a fork read ends at its first failed call.
- Stage0.Kernel.Dispatch: what the calls that set no variable return and store is left open within the ranges they may store to, but for getrandom and the four calls that check a range. The frame's arguments are read once, at entry; the code rereads them after stores, which is the same when the stores miss the frame. Umask, the counters, the file texts and the page table are not among the words a store can hit.
- Stage0.Kernel.Serve: file contents are arbitrary strings below 2 GiB rather than the literal texts.
- Sv32.InstallIdentity: asks for a RAM end at which the loop ends; `NeverEnds` shows that it does not end otherwise.
- Sv32.InstallUserMmu: the same.
- Console.LineEditor.RxChar: what an accepted line makes the console do, and redrawing, are not modelled.
