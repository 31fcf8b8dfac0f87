# QuantaOs: a verified model

QuantaOs is a small x86_64 operating system. This project models the parts of it whose correctness is a
matter of logic and not of hardware, and proves what they are for. Everything is checked by
`dafny verify dfyconfig.toml`.

| part | original | files |
|---|---|---|
| Physical frames, 4-level page tables, teardown | `kernel/mm/memory.c` | `Bits`, `Frames`, `Paging`, `Teardown`, `AddressSpaces`, `KernelMaps`, `Memory` |
| Task address spaces and the user range check | `kernel/core/task.c` | `UserMemory` |
| QFS v2, kernel driver | `kernel/core/qfs2.c` | `Bytes`, `Struct`, `Crc32`, `CrcPolynomial`, `BlockDevice`, `Qfs2Format`, `Qfs2Volume`, `Qfs2Path`, `Qfs2Image`, `Qfs2Faults`, `Qfs2Query`, `Qfs2` |
| QFS v2, host formatter and parser | `tools/qfs2.py` | `HostPaths`, `HostTool`, `HostCreate`, `HostFormat`, `HostTree`, `HostImage`, `HostBuild`, `HostWriter`, `HostReadBack`, `HostAgreement`, `HostLayout`, `HostDifferences` |
| Double-buffered display with damage tracking | `kernel/arch/x86_64/tables.c` | `Display` |
| Two-slot account store, SHA-256, CRC-32 | `kernel/core/account.c`, `tools/account.py` | `Sha256`, `AccountRecord`, `Account` |
| File handles, call/receive/reply | `kernel/core/task.c` | `FileHandles`, `LongestPath`, `Ipc` |
| Path resolution in the shell | `userspace/session.c` | `PathResolve`, `Shell` |
| Boot loader | `bootloader/uefi/loader.c` | `Elf`, `Loader`, `BootTables` |

Code that changes state is a class or a method with loops, as it is in the original: the allocator, the
page tables and the boot loader work in place on memory, the file-system driver has its one sector buffer
and its chunk loops, the display its pixel loops, the task layer its global state. Each such method is
proved to compute a function on values, and the theorems are about those functions and about runs.

The abstract value of a QFS volume is a tree: a function from paths to records and bytes. The concrete
value is the disk's byte image. Kernel and host are modelled separately and proved to agree: on what they
read, on what they create, and on what the host formats.

The functions that specify a method are in turn tied to something that does not mention them: packed
records to their fields in order (`Struct`), CRC-32 to division by its polynomial, SHA-256 to single bits
and to sums, the order of files to a comparison at the first difference, accepted paths to the texts that
spell them, flags and modes to bit numbers.

## What the code does that its users might not expect

- `quanta_memory_initialize` halts when an eligible usable region starts within one page of 2^64, because
  rounding its start up wraps to zero (`KernelMemory.PhysicalMemory.Initialize` has the exact condition,
  `KernelMemory.HighRegionHalts` a memory map).
- `find_child` reports a read fault as "not found" (kernel/core/qfs2.c:113-128, 249), so on a failing disk
  `create_node` may add a name that exists. It does so, whenever an inode and an entry are free, if a read of
  its duplicate check is the first transfer to fail and no later one fails; if instead the first fault comes
  before that check, or after the first entry of that name has been read, or never, the disk stays as it was
  (`Qfs2Driver.Qfs2.FindChild`, `Qfs2Driver.Qfs2.CreateNode`, and `Qfs2Driver.AddTwin` for each single fault).
- A name directly below the root must fit in 48 bytes together with the drive name (`PathResolve.RootNameLimit`).
- The host accepts fewer superblocks than the kernel (`HostTool.HostSuperIsKernels` has the exact condition,
  `HostDifferences.KernelOnlySupers` two inputs). It refuses the names `.` and `..` and every name that is
  not ASCII, and every disk that holds one that is not; the kernel accepts them. Apart from that the two
  create the same nodes (`HostCreate.CreatorsAgree` is the exact statement, `HostDifferences.DotOnlyKernel` an
  input).
- FS_OPEN refuses a path of 95 characters although the path check accepts it, and may have created the
  file by then (`FileHandles.FileTable.Open`, `FileHandles.LongestPathNotOpened`,
  `LongestPathDisk.LongestPathExists`).
- A receiver whose message and payload buffers overlap gets the payload, and the message only if the two
  agree there (`Ipc.TaskLayer.Receive`, `Ipc.OverlappingReceive`).
- A storage area mapped over a task's code or stack makes those pages read-only for the task
  (`UserMemory.StorageTranslates`, `UserMemory.StorageOverCode`).
- Text is drawn lowest byte first on every screen; where the red byte comes first, its red and blue are
  exchanged (`DisplayBuffer.TextColour` has the exact condition).
- At generation 2^64 - 1 a password change writes a record that is never chosen (`AccountRecords.ChangeWraps`).
- An icon cut off at the right edge is read from the atlas without skipping the cut pixels
  (`DisplayBuffer.IconInPlace`, `DisplayBuffer.CutOffIcon`).
- `path_resolve` reads the byte behind the terminating zero of an empty input; that byte is the parameter
  `beyond`, and the theorems hold for every value of it.

## Model

| member | source | states |
|---|---|---|
| `KernelMemory.PhysicalMemory.Initialize` | kernel/mm/memory.c:22-61 | It keeps running if and only if some usable region has a non-empty part inside [4 MiB, 1 GiB) and no eligible region starts so high that rounding its start wraps; the pool is then a largest clipped region, with nothing allocated and an empty free list |
| `KernelMemory.HighRegionHalts` | kernel/mm/memory.c:35-61 | One usable byte at 2^64 - 4095 as the whole memory map makes the machine halt |
| `KernelMemory.PhysicalMemory.FrameAllocate` | kernel/mm/memory.c:63-83 | The pops and bumps on the in-frame list, the bitmap and the cleared page are the value-level allocation, whose meaning `Frames.AllocateOk` states |
| `KernelMemory.PhysicalMemory.FrameIsAllocated` | kernel/mm/memory.c:85-93 | True exactly for the aligned pool frames below the bump pointer whose bit is set |
| `KernelMemory.PhysicalMemory.FrameRelease` | kernel/mm/memory.c:95-101 | The in-place release is the value-level one, whose meaning `Frames.ReleaseOk` states |
| `Frames.AllocateOk` | kernel/mm/memory.c:63-83 | Allocation returns a zeroed, aligned pool frame that was not allocated, marks that frame and no other, fails if and only if list and tail are both empty, and keeps list, bump pointer and bitmap in agreement |
| `Frames.ReleaseOk` | kernel/mm/memory.c:85-101 | Releasing an allocated frame pushes it on the list and clears exactly its mark; releasing anything unallocated, foreign or unaligned changes nothing; the structures stay in agreement |
| `Frames.ChainUnique` | kernel/mm/memory.c:69-73 | The words stored in the free frames determine the free list: two readings of one memory agree, so the list is acyclic and unambiguous |
| `Frames.FramesConserved` | kernel/mm/memory.c:63-101 | Allocated, listed and never-used frames together count the whole pool |
| `KernelMemory.PhysicalMemory.TableForEntry` | kernel/mm/memory.c:111-116 | The in-place step equals the value-level one, whose meaning `Paging.TableForOk` states |
| `Paging.TableForOk` | kernel/mm/memory.c:111-116 | It returns the table below an entry, hangs at most one fresh empty table on that entry, disturbs no other entry and no translation, and fails only when no frame is left |
| `Paging.WalkIsLeaf` | kernel/mm/memory.c:125-136 | Outside slot 511 the processor's walk (Intel SDM volume 3A, section 4.5) is the entry of the page table it descends to |
| `KernelMemory.PhysicalMemory.MapVirtualPage` | kernel/mm/memory.c:125-136 | The in-place mapping equals the value-level one, for pages of a space's user half and for pages of the kernel slot through the boot root; `Paging.MapPageOk` and `KernelMaps.MapSharedOk` state what that means |
| `Paging.MapPageOk` | kernel/mm/memory.c:111-136 | `quanta_map_page` is one map update: the walk of the given page yields the new frame and flags, every other page of this and of every other space translates as before, the tables stay a forest of distinct allocated frames, and no page that is not a table is written |
| `KernelMemory.PhysicalMemory.AddressSpaceCreate` | kernel/mm/memory.c:118-123 | The in-place creation equals the value-level one, whose meaning `Paging.CreateSpaceOk` states |
| `Paging.CreateSpaceOk` | kernel/mm/memory.c:118-123 | A new space has an empty user half and the boot tables' kernel half, takes one frame, and changes no other space; it fails if and only if no frame is left |
| `KernelMemory.PhysicalMemory.DestroyTableFrame` | kernel/mm/memory.c:138-149 | The recursive in-place release is the value-level one and terminates by level |
| `KernelMemory.PhysicalMemory.AddressSpaceDestroy` | kernel/mm/memory.c:151-165 | The loop over the user slots is the value-level teardown, whose meaning `Teardown.DestroySpaceOk` states |
| `Teardown.DestroyTableOk` | kernel/mm/memory.c:138-149 | `destroy_table` moves exactly the tables of the subtree from allocated to the free list, each once, and writes nothing else |
| `Teardown.DestroySpaceOk` | kernel/mm/memory.c:138-165 | Destroying a space whose root is not active releases each of its tables exactly once and no leaf, no slot-511 table and no table of another space, and leaves every other translation as it was |
| `AddressSpaces.MapAllOk` | kernel/mm/memory.c:111-136 | Any sequence of maps refines the same sequence of map updates on a function from pages to leaf entries |
| `AddressSpaces.CreateMapDestroy` | kernel/mm/memory.c:118-165 | Create, any maps, destroy: the allocated frames and all other translations are what they were before |
| `AddressSpaces.StepSound` | kernel/mm/memory.c:63-165 | Every legal operation keeps the joint invariant of allocator and page tables, and leaves alone all translations but those of the page it maps or the space it destroys |
| `AddressSpaces.RunSound` | kernel/mm/memory.c:63-165 | The joint invariant holds along every run of legal operations |
| `AddressSpaces.NoLeak` | kernel/mm/memory.c:63-165 | Over any run that has destroyed all its spaces, the allocated frames are exactly those callers hold and the pinned kernel tables |
| `AddressSpaces.BootSound` | kernel/mm/memory.c:22-61 | The memory after initialization starts such a run, when the shared kernel tables lie outside the pool and lead only into each other |
| `BootTables.LoaderTablesShared` | bootloader/uefi/loader.c:188-206 | The tables that `build_tables` leaves at 0x100000 meet that condition: the kernel slot and everything below it lead only into the five tables behind the root, level by level |
| `BootTables.BootStartsSound` | kernel/mm/memory.c:22-61 | So every run of the memory module on the loader's tables starts from a sound state |
| `KernelMaps.MapSharedOk` | kernel/mm/memory.c:111-136 | `quanta_map_page` on the boot root for a page of the kernel slot: it takes fresh frames for the tables it adds below the shared ones, the page shows the new entry with no right that the entry or the root's slot denies, and every other page of the slot and of every user half translates as before |
| `KernelMaps.SetUpSound` | kernel/arch/x86_64/tables.c:798-815 | In any order of handing out back-buffer pages and mapping pages of the display's gigabyte, the joint invariant is kept and exactly the tables added are pinned |
| `KernelMaps.RunShares` | kernel/mm/memory.c:118-124 | What the kernel slot of the boot root shows before the first space is created is what every live space of every later run of legal operations shows there |
| `BootTables.LoaderReady` | bootloader/uefi/loader.c:188-206 | The loader's tables hang below one entry each and leave the display's gigabyte empty, so that the maps of the display meet no large page |
| `BootTables.DisplayShared` | kernel/core/kernel_main.c:9-21 | From the loader's tables on: setting up the display leaves a sound state in which exactly the tables it added are pinned, and in every later run every address space sees the display as it was set up |
| `UserMemory.Create` | kernel/core/task.c:149-181 | `create` maps code, stack, text buffer and storage in that order onto frames taken for this task, and halts only if the image is empty, does not fit, or no frame is left |
| `UserMemory.OwnedTranslates` | kernel/core/task.c:155-171 | A code or stack address that the storage leaves alone translates to the frame taken for it, with the present, writable and user bits set and the no-execute bit set exactly on the stack |
| `UserMemory.StorageTranslates` | kernel/core/task.c:174-181 | Wherever the storage is mapped, also over code or stack, an address translates to itself, for the user to read and not to write or execute |
| `UserMemory.TextTranslates` | kernel/core/task.c:172-173 | The page of the text buffer translates to itself, writable |
| `UserMemory.NothingElse` | kernel/core/task.c:149-181 | No other address of the user half translates |
| `UserMemory.CodePagesLeast` | kernel/core/task.c:155 | The code takes the least number of pages that holds it |
| `UserMemory.StorageOverCode` | kernel/core/task.c:92-103 | With eight sectors loaded at the code's address, the range check accepts the first code page although the task cannot write it |
| `UserMemory.AcceptedExactly` | kernel/core/task.c:92-103 | A non-empty range is accepted if and only if all its bytes lie in the pages, from 0x400000 on, onto which `create` mapped the code frames, or all in the two, from 0x7fffffffd000 on, onto which it mapped the stack frames; a range that wraps is refused, and an empty one is accepted unless it is at zero |
| `UserMemory.AcceptedRange` | kernel/core/task.c:92-103 | Every byte of every non-empty accepted range, storage apart, translates through the table `create` built to a present, user, writable frame that is allocated and was not before |
| `Device.BlockDevice.Read` | kernel/vfs/storage.c:86-91 | A read returns the bytes of that sector or fails without effect; a healthy device fails only past its end |
| `Device.BlockDevice.Write` | kernel/vfs/storage.c:93-98 | A write replaces exactly that sector or fails without effect |
| `Crc32.Checksum` | kernel/core/qfs2.c:30-37 | The two bit loops with the branch-free mask compute `Crc` of the first `length` bytes, whose meaning the next two rows state |
| `CrcPolynomial.CrcIsRemainder` | kernel/core/qfs2.c:30-37 | A word is the checksum if and only if its complement, as a polynomial, is what division of the message behind 32 more places, its first 32 places complemented, by x^32 + x^26 + x^23 + x^22 + x^16 + x^12 + x^11 + x^10 + x^8 + x^7 + x^5 + x^4 + x^2 + x + 1 leaves |
| `CrcPolynomial.CheckValue` | kernel/core/qfs2.c:30-37 | The checksum of the nine characters 123456789 is 0xCBF43926 |
| `Qfs2Format.SuperblockLayout` | kernel/core/qfs2.c:11-15 | The superblock is read from the fields of the packed structure, one behind the other, lowest byte first |
| `Qfs2Format.InodeLayout` | kernel/core/qfs2.c:16-20 | An inode record is written as, and read from, the fields of the packed structure |
| `Qfs2Format.EntryLayout` | kernel/core/qfs2.c:21-23 | A directory entry is written as, and read from, the fields of the packed structure |
| `Crc32.StepBitInjective` | kernel/core/qfs2.c:33-34 | One bit step loses no information, because the polynomial's top bit is set |
| `Crc32.DetectsWindow` | kernel/core/account.c:39 | Two equally long inputs that differ, and only within four consecutive bytes, have different CRCs |
| `Crc32.SealBreaks` | kernel/core/account.c:40-45 | No change confined to four consecutive bytes, of the data, of the stored CRC or across both, turns one checked record into another |
| `Qfs2Image.SuperCorruptionRejected` | kernel/core/qfs2.c:44-56 | `load_super` rejects every corruption of a loadable superblock that is confined to four consecutive of its checked bytes |
| `Qfs2Driver.Qfs2.ReadSuper` | kernel/core/qfs2.c:44-56 | What it delivers is the superblock of the image, and on a healthy device it fails exactly when the checks do |
| `Qfs2Driver.Qfs2.ReadMetadata` | kernel/core/qfs2.c:57-73 | The chunk loop delivers the bytes of the disk at that offset, across sector boundaries; inside the volume it fails if and only if one of the sectors it touches fails to read, and it makes no transfer after that one |
| `Qfs2Driver.Qfs2.WriteMetadata` | kernel/core/qfs2.c:74-91 | The chunked read-modify-write replaces exactly the given bytes of the disk, also when a record straddles sectors; whatever transfers fail, no other byte changes |
| `Qfs2Driver.Qfs2.ReadInode` | kernel/core/qfs2.c:92-99 | It reads the record of that slot, for exactly the numbers of the table |
| `Qfs2Driver.Qfs2.WriteInodeRecord` | kernel/core/qfs2.c:100-107 | It replaces the record of that slot and no other byte |
| `Qfs2Driver.Qfs2.FindChild` | kernel/core/qfs2.c:113-128 | Under every schedule of faults it succeeds if and only if the name is there and no transfer up to the first entry of that name fails, and then finds that entry |
| `Qfs2Faults.SearchEndIs` | kernel/core/qfs2.c:113-128 | Those transfers end with the first entry of that name, or with the table when there is none |
| `Qfs2Driver.Qfs2.WalkPath` | kernel/core/qfs2.c:129-158 | On a healthy device it succeeds exactly when the parsed path resolves, with the same inode; where the path resolves it fails if and only if one of the transfers of its lookups does |
| `Qfs2Driver.Qfs2.SplitPath` | kernel/core/qfs2.c:210-237 | The scans and copies compute the value-level split, whose meaning `Qfs2Path.SplitParses` states |
| `Qfs2Path.ParseExactly` | kernel/core/qfs2.c:129-158 | `find_path` walks exactly these names for exactly these texts: prime or live, a colon, and names of 1 to 48 characters without slash, backslash, colon and `>`, with a `>` between neighbours and at most one more at either end |
| `Qfs2Path.SplitExactly` | kernel/core/qfs2.c:210-237 | Of the paths that the system-call gate accepts and `find_path` can walk, `split_path` takes those with a name, except a name directly below the root that leaves no room for the drive within 48 characters |
| `Qfs2Path.SplitParses` | kernel/core/qfs2.c:210-237 | On every path the system-call gate accepts, `split_path` cuts off exactly the last component that `find_path` would walk, and it is a legal name |
| `PathResolve.RootNameLimit` | kernel/core/qfs2.c:224 | A name directly below the root is accepted by `split_path` if and only if it fits in 48 bytes together with the drive name, while `find_path` walks all names of up to 48 bytes |
| `Qfs2Driver.Qfs2.WriteNode` | kernel/core/qfs2.c:270-297 | On a healthy device, with the name absent and the entry free, both records are written and the final check never fails |
| `Qfs2Driver.Qfs2.FindTarget` | kernel/core/qfs2.c:243-251 | On a healthy device it passes exactly the new names below a directory; a name that is there passes if and only if a read of the duplicate check is the first transfer to fail |
| `Qfs2Driver.Qfs2.CreateNode` | kernel/core/qfs2.c:239-298 | On a healthy device it returns 0 exactly when there is a place for the node, the disk then being the image with that node, and when it returns -1 the disk is byte for byte what it was. Under every schedule of faults no byte changes outside one inode record and one entry that were free, and a name that is there is refused with the disk unchanged unless a read of the duplicate check is the first transfer to fail; if no later one fails, the node is then written as if the name were absent. `Qfs2Image.CreateSucceeds` and `Qfs2Image.CreateOk` say when there is a place and what the image then holds |
| `Qfs2Driver.OthersStand` | kernel/core/qfs2.c:239-298 | So whatever becomes of a creation, the superblock, every other record and entry and all file contents stay what they were |
| `Qfs2Driver.AddTwin` | kernel/core/qfs2.c:249-297 | On every sound disk with a free inode and entry, for every name that is there, in whatever directory, and every single fault that hits a read of the duplicate check: the name stands in the table twice afterwards, and the call reports success if and only if the new entry stands before the old one |
| `Qfs2Driver.TwinEntries` | kernel/core/qfs2.c:279-290 | Adding a name that is there gives a table with two entries of that name, which is no tree |
| `Qfs2Volume.PathUnique` | kernel/core/qfs2.c:129-158 | In a well-formed volume a node has one path only |
| `Qfs2Volume.AddResolves` | kernel/core/qfs2.c:239-298 | After a node is added the new path leads to it, and every other path leads where it led |
| `Qfs2Volume.AddKeepsWellFormed` | kernel/core/qfs2.c:239-298 | Adding a node keeps the tree well-formed: slots, unique names, one entry per inode, reachability |
| `Qfs2Image.CreateSucceeds` | kernel/core/qfs2.c:239-269 | On a sound image there is a place if and only if the path names something below a directory, nothing has the name, a name below the root leaves room for the drive, and an inode number above 1 and an entry are free |
| `Qfs2Image.CreateOk` | kernel/core/qfs2.c:239-298 | Creation keeps a sound image sound; the first free number and the first free entry are taken; the new path was free and now has an empty node of that kind and number, with mode rwxr-xr-x for a directory and rw-r--r-- for a file by bit number, owner and group 1000, generation 1 and zeros in all other fields; the entry holds parent, number, kind and name; every other path has the record and the bytes it had |
| `Qfs2Volume.NewInodeIs` | kernel/core/qfs2.c:270-275 | The record written, field by field |
| `Qfs2Volume.NewEntryIs` | kernel/core/qfs2.c:279-282 | The entry written, field by field, with zeros behind the name |
| `Qfs2Query.FindIsLookup` | kernel/core/qfs2.c:129-158 | The kernel finds a path if and only if it parses and resolves in the tree, and gets that node's record |
| `Qfs2Query.ReadIsContents` | kernel/core/qfs2.c:159-176 | Reading returns exactly the file's bytes when they are shorter than the capacity, and -1 for everything else |
| `Qfs2Query.ReadHolds` | kernel/core/qfs2.c:159-176 | On any image, sound or not: a read succeeds if and only if the node is a file shorter than the capacity whose extent is empty or passes the checks and lies on the device, and returns the bytes of the sectors counted up in 32 bits |
| `Qfs2Query.ListIsChildren` | kernel/core/qfs2.c:177-198 | With enough room a listing is exactly the names of the directory's children |
| `Qfs2Query.ListHolds` | kernel/core/qfs2.c:177-198 | On any image and for any capacity: a listing holds, in entry order, exactly the names below the directory that with a character and a zero behind them leave a byte of the rest of the buffer unused, each followed by a space and the last by a newline; it is empty or at least two shorter than the capacity |
| `Qfs2Driver.Qfs2.ReadPath` | kernel/core/qfs2.c:159-176 | The sector loop delivers what `ReadFile` says, whose check of the extent sums in 64 bits; on a healthy device it fails exactly when that does |
| `Qfs2Driver.Qfs2.ListPath` | kernel/core/qfs2.c:177-198 | For every 32-bit capacity the entry loop and the final newline deliver what `List` says, which is the listing that `Qfs2Query.ListHolds` describes; the 32-bit sums of lengths do not wrap, and text and zero never fill the buffer |
| `Qfs2Driver.Qfs2.StatPath` | kernel/core/qfs2.c:199-208 | It reports from the record of the node at the path |
| `HostTool.HostSuperIsKernels` | tools/qfs2.py:85-98 | The host accepts exactly the kernel's superblocks that have all eight magic bytes and whose entry table ends inside the volume |
| `HostDifferences.KernelOnlySupers` | kernel/core/qfs2.c:44-56 | Two superblocks that only the kernel accepts: one with a character behind the five letters of the magic, and one whose table region ends past the volume at a sector number that wraps |
| `HostTool.HostTablesAreView` | tools/qfs2.py:174-187 | Both read the same tables from a well laid out image |
| `HostPaths.FindPaths` | tools/qfs2.py:178-194 | The pending loop terminates and computes the passes of the specification; it stops with an exception exactly when a pass makes no progress or a name is not ASCII |
| `HostPaths.PathsOfOk` | tools/qfs2.py:178-194 | On a well-formed volume with ASCII names the loop succeeds and gives exactly the live inodes, each with the text of its path |
| `HostPaths.PathsOfExactly` | tools/qfs2.py:178-194 | On a well-formed volume it succeeds if and only if all names are ASCII |
| `HostPaths.AsciiIs` | tools/qfs2.py:178-194 | ASCII names are those of seven-bit characters |
| `HostTool.ReadFiles` | tools/qfs2.py:167-201 | The loops of `parse_volume` compute the value-level parse, whose meaning the next two rows state |
| `HostTool.ParseOk` | tools/qfs2.py:167-201 | The dictionary holds exactly the files of the tree, under their paths, with their bytes |
| `HostTool.ParseIsLookup` | tools/qfs2.py:167-201 | On a sound disk the host's dictionary and the kernel's look-up agree on every path, present or absent |
| `HostPaths.SplitHostText` | tools/qfs2.py:204-211 | `_split_path` takes a path text apart into the parent's text and the last name |
| `HostCreate.CreateNode` | tools/qfs2.py:267-300 | The image is changed as `HostCreated` says, or not at all when an exception is raised |
| `HostCreate.HostCreateOk` | tools/qfs2.py:267-300 | On a sound disk what it creates is, as the kernel finds it, the same new node in the same place: number, kind, mode by bit number, owner, group, generation, zeros, and its entry |
| `HostCreate.SamePlace` | tools/qfs2.py:267-296 | On a well-formed volume the host chooses the kernel's parent, name, inode slot and entry slot for the same new path if it accepts the name, and refuses otherwise |
| `HostCreate.CreatorsAgree` | tools/qfs2.py:267-300 | On every sound disk and for every path that the kernel takes apart, the two node creators refuse together or produce byte-identical images if the magic is the full one, the names on the disk are ASCII and the new name is one that the host encodes; otherwise the host refuses |
| `HostDifferences.DotOnlyKernel` | tools/qfs2.py:48-53 | On every disk that the host formats without files the kernel creates `.` below the root and the host refuses it |
| `HostDifferences.EmptyDiskExists` | tools/qfs2.py:112-165 | There is such a disk |
| `HostFormat.DirectoriesAre` | tools/qfs2.py:101-109 | `_parents` lists the root first, each directory once, sorted by the number of slashes and then in the byte order of the texts, and exactly the proper prefixes of the files' paths |
| `HostFormat.SortFilesSorted` | tools/qfs2.py:120 | The files are the given ones, and none comes before an earlier one in the byte order of the path texts |
| `HostFormat.TextLessIsBefore` | tools/qfs2.py:120 | The comparison is that order: at the first place where two texts differ the smaller character is first, or the text that ends there |
| `HostFormat.BeforeTotal` | tools/qfs2.py:120 | Of two different texts exactly one is first |
| `HostWriter.GatherParents` | tools/qfs2.py:101-109 | The loops and the sort compute that list, and it is in that order |
| `HostWriter.ListEntries` | tools/qfs2.py:128-134 | The two loops produce the entry of every directory below the root and of every file, with the parent's inode number |
| `HostWriter.PlaceFiles` | tools/qfs2.py:139-150 | The accumulating loop produces the inode records and the payload of whole sectors, and the sector after the last file |
| `HostWriter.MarkBitmap` | tools/qfs2.py:159-162 | The in-place loop sets the bits from the first sector up to the end |
| `HostWriter.BuildVolume` | tools/qfs2.py:112-164 | `build_volume` returns the specified image, and raises exactly when a path is illegal, a path is both file and directory, the contents exceed the volume, or a used sector lies beyond the one-sector bitmap. The rows of `HostLayout` say where everything stands in the image |
| `HostLayout.SuperblockFollows` | tools/qfs2.py:60-82 | On a formatted disk superblock, bitmap, inodes and entries stand behind one another from sector 514 on, numbers in use run from 1 without a gap, and both tables are the least that their reserves of 16 and 32 sectors and their contents allow |
| `HostLayout.NumbersFollow` | tools/qfs2.py:120-127 | Of two nodes the directory has the smaller number, of two directories the shallower, and otherwise the one that is first in the byte order of the path texts |
| `HostLayout.EntriesFollow` | tools/qfs2.py:128-134 | The entry of the node with number n is in place n - 2 and holds the number of its directory, n, its kind and its name |
| `HostLayout.EntriesEnd` | tools/qfs2.py:128-134 | There are no other used entries |
| `HostLayout.ExtentsFollow` | tools/qfs2.py:137-146 | The extents follow each other in the byte order of the path texts, without a gap between neighbours |
| `HostLayout.FirstExtent` | tools/qfs2.py:136-138 | The first extent begins where the entries end |
| `HostLayout.RecordsFollow` | tools/qfs2.py:137-145 | The record of every node, field by field: a directory has that of a new one; a file has mode rwxr-xr-x if its path text begins with /bin/ and rw-r--r-- if not, its size, and the least number of sectors but at least one |
| `HostTree.BuiltWellFormed` | tools/qfs2.py:112-158 | The tables that `build_volume` fills are a well-formed tree |
| `HostTree.BuiltFound` | tools/qfs2.py:112-158 | No path leads anywhere in that tree but the paths of the files and of their directories |
| `HostImage.SuperRoundTrip` | tools/qfs2.py:67-73 | Decoding undoes the packing of the superblock |
| `HostImage.RegionInode` | tools/qfs2.py:74-82 | Every slot of the inode region decodes to the record packed there, or to an empty one |
| `HostImage.RegionEntry` | tools/qfs2.py:74-82 | The same for directory entries, which straddle sectors |
| `HostImage.ExtentsApart` | tools/qfs2.py:137-150 | The files' extents are pairwise disjoint, lie behind the tables, and hold their bytes |
| `HostReadBack.RoundTrip` | tools/qfs2.py:112-201 | `parse_volume` undoes `build_volume`: for every set of distinct legal paths that fits, whatever else is on the disk, it returns exactly the original paths with their bytes |
| `HostAgreement.SoundBuilt` | tools/qfs2.py:112-164 | A disk formatted by the host meets everything the kernel's driver relies on |
| `HostAgreement.KernelReads` | kernel/core/qfs2.c:159-176 | On a formatted disk the kernel's read of a path returns the bytes given for it when they are shorter than the capacity, and -1 for every directory and every path not given |
| `HostAgreement.KernelStats` | kernel/core/qfs2.c:199-208 | On a formatted disk stat gives the kind and size of what the files have at the path, and fails exactly where they have nothing |
| `HostLayout.StatIsRecord` | kernel/core/qfs2.c:199-208 | stat reports from that record |
| `HostAgreement.KernelLists` | kernel/core/qfs2.c:177-198 | On a formatted disk a listing with enough room is exactly the files and directories directly below the path |
| `HostAgreement.SameBytes` | tools/qfs2.py:167-201 | The host's dictionary under `/a/b` and the kernel's read of `prime:a>b` give the same bytes |
| `HostAgreement.BitmapIsUse` | tools/qfs2.py:159-163 | The bitmap on the disk marks exactly the sectors of superblock, bitmap, tables and file extents |
| `DisplayBuffer.Display.MarkDirty` | kernel/arch/x86_64/tables.c:120-138 | The damage becomes the smallest rectangle that holds the old one and the clipped new one |
| `DisplayBuffer.GrowLeast` | kernel/arch/x86_64/tables.c:120-138 | It holds no pixel that a rectangle around both would not hold |
| `DisplayBuffer.ClipIs` | kernel/arch/x86_64/tables.c:343-345 | Clipping keeps exactly the pixels of the rectangle that are on the screen |
| `DisplayBuffer.Display.FillRect` | kernel/arch/x86_64/tables.c:338-382 | Exactly the clipped rectangle is blended with the colour, byte by byte; the pages stay coherent and only damaged pixels changed |
| `DisplayBuffer.FilledOpaque` | kernel/arch/x86_64/tables.c:360-366 | A colour without transparency replaces the three bytes, lowest first, or highest first on a screen with the red byte first |
| `DisplayBuffer.FilledMixed` | kernel/arch/x86_64/tables.c:367-374 | Any other is mixed in by its highest byte: the weighted mean, rounded down |
| `DisplayBuffer.BlendIs` | kernel/arch/x86_64/tables.c:368-373 | The mean is all of the one at 255, all of the other at 0, and never outside the two |
| `DisplayBuffer.Display.FillRoundedRect` | kernel/arch/x86_64/tables.c:384-406 | Exactly the pixels of the rounded rectangle are filled, its coordinates summed in 32 bits, under the same invariant |
| `DisplayBuffer.InsetLeast` | kernel/arch/x86_64/tables.c:393-402 | The corner loop finds the least inset at which the row enters the corner circle |
| `DisplayBuffer.EdgeMirrors` | kernel/arch/x86_64/tables.c:388-392 | The corners at both ends mirror each other, row by row, and the rows between have none |
| `DisplayBuffer.HasCornersIs` | kernel/arch/x86_64/tables.c:384-388 | Corners are drawn when there are any and two of them fit beside and above each other |
| `DisplayBuffer.Display.DrawWallpaper` | kernel/arch/x86_64/tables.c:408-442 | Exactly the clipped area shows the scaled wallpaper, under the same invariant |
| `DisplayBuffer.WallpaperShows` | kernel/arch/x86_64/tables.c:423-437 | Every pixel shows the palette entry of the last source pixel not below or to the right of its scaled position, in the byte order of the screen |
| `DisplayBuffer.Display.DrawIcon` | kernel/arch/x86_64/tables.c:140-173 | Exactly the clipped square is blended with the atlas pixels in reading order, under the same invariant |
| `DisplayBuffer.IconShows` | kernel/arch/x86_64/tables.c:157-168 | The fourth bytes of the atlas mix 0xdceeff into what is there |
| `DisplayBuffer.IconInPlace` | kernel/arch/x86_64/tables.c:154-172 | An icon shows its part of every atlas if and only if it is not cut off on the right or has one row only |
| `DisplayBuffer.CutOffIcon` | kernel/arch/x86_64/tables.c:154-172 | For every narrower width an atlas whose second row is drawn wrongly |
| `DisplayBuffer.Display.DrawGlyph` | kernel/arch/x86_64/tables.c:444-470 | Exactly the glyph's cells take foreground or background by the font bit, under the same invariant |
| `DisplayBuffer.GlyphShows` | kernel/arch/x86_64/tables.c:455-462 | A pixel shows the foreground if bit 7 - column of the font row is set, and the background, or what was there, if not |
| `DisplayBuffer.GlyphSquare` | kernel/arch/x86_64/tables.c:449-464 | Every bit of the sixteen font bytes is a square of scale by scale pixels, at its row and column |
| `DisplayBuffer.TextColour` | kernel/arch/x86_64/tables.c:459-461 | On a screen with the red byte first text has the colour of a rectangle if and only if its red and blue are equal |
| `DisplayBuffer.Display.Scroll` | kernel/arch/x86_64/tables.c:724-751 | The terminal area moves up sixteen rows and the last rows are cleared; nothing else changes |
| `DisplayBuffer.Display.PromptFits` | kernel/arch/x86_64/tables.c:531-573 | On every screen that the initialization admits, no coordinate of a prompt of at most 128 characters wraps |
| `DisplayBuffer.Display.DrawTerminalPrompt` | kernel/arch/x86_64/tables.c:531-573 | The screen is painted over with the background, the bar, the directory up to the first dollar sign, the bracket, the prompt, the input behind the dollar sign and the cursor frame, in this order, under the same invariant |
| `DisplayBuffer.PromptSplits` | kernel/arch/x86_64/tables.c:541-563 | The text shown and the input are the two sides of the first dollar sign; without one, or with one at the very beginning, there is no input |
| `DisplayBuffer.Display.PromptPlaces` | kernel/arch/x86_64/tables.c:531-569 | Where directory, bracket, input and cursor stand, and how large the letters are, in shares of the screen; no 32-bit sum wraps |
| `DisplayBuffer.Display.TerminalShows` | kernel/arch/x86_64/tables.c:538-540 | The empty terminal is its background but for the bar at the left with its gap |
| `DisplayBuffer.Display.BracketOutlines` | kernel/arch/x86_64/tables.c:548-555 | The three boxes make a bracket open to the right, with the dollar sign in front of the input |
| `DisplayBuffer.Display.CursorOutlines` | kernel/arch/x86_64/tables.c:563-573 | The four boxes make a frame two pixels thick |
| `DisplayBuffer.Display.Draw` | kernel/arch/x86_64/tables.c:575-608 | The commands up to the first unknown one paint over each other in order, pixel by pixel; it succeeds if and only if none is unknown; the pages stay coherent |
| `DisplayBuffer.ExecutedIs` | kernel/arch/x86_64/tables.c:575-608 | The commands executed are those before the first unknown one, and none of a list of more than 32 |
| `DisplayBuffer.Display.CopyDirty` | kernel/arch/x86_64/tables.c:189-208 | Exactly the rectangle is copied from the back buffer to that page |
| `DisplayBuffer.Display.Present` | kernel/arch/x86_64/tables.c:610-642 | Success makes every scanout page equal the back buffer and flips the front page; each failure return keeps damage, front page and coherence |
| `DisplayBuffer.Display.Session` | kernel/arch/x86_64/tables.c:575-642 | Over every run of draw and present calls, with any answers of the display, every page equals the back buffer outside the damage |
| `Sha256.RotateRightBit` | kernel/core/account.c:10 | The two shifts or-ed together rotate: every bit moves down by `n` places, around the end of the word |
| `Sha256.BigSigmaBits` | kernel/core/account.c:33 | Bit by bit, the rotations of section 4.1.2 by 2, 13 and 22 and by 6, 11 and 25 |
| `Sha256.SmallSigmaBits` | kernel/core/account.c:31 | The rotations by 7 and 18 and by 17 and 19, with the shifts by 3 and by 10 |
| `Sha256.ChooseMajorityBits` | kernel/core/account.c:33 | Bit by bit, a choice between two words, and what at least two of three words have |
| `Sha256.RoundIs` | kernel/core/account.c:33 | Six registers move down one place, and the first and the fifth take the sums of section 6.2.2, step 3 |
| `Sha256.ScheduleIs` | kernel/core/account.c:30-31 | The recurrence of section 6.2.2, step 1, from the words of the block, highest byte first |
| `Sha256.PadIs` | kernel/core/account.c:24-29 | The padding of section 5.1.1: message, a one bit, zero bits, and the number of bits in eight bytes; the least number of whole blocks |
| `Sha256.BlocksAre` | kernel/core/account.c:22-35 | From the initial value on, each block adds its 64 rounds register by register |
| `Sha256.OutputIs` | kernel/core/account.c:36 | The digest is the eight registers, highest byte first |
| `Sha256.ConstantIsCubeRoot` | kernel/core/account.c:11-20 | Each round constant is the first 32 fractional bits of the cube root of its prime (FIPS 180-4, section 4.2.2) |
| `Sha256.InitialIsSquareRoots` | kernel/core/account.c:22 | The initial state is the fractional bits of the square roots of the first eight primes (section 5.3.3) |
| `Sha256.FillBlock` | kernel/core/account.c:24-29 | The block loop generates exactly that padding, block by block |
| `Sha256.Expand` | kernel/core/account.c:30-31 | The word loop is the message schedule of section 6.2.2 |
| `Sha256.Mix` | kernel/core/account.c:32-35 | The rolling registers compute the sixty-four rounds of section 6.2.2 |
| `Sha256.Hash` | kernel/core/account.c:21-37 | `hash` is the recursive SHA-256 of FIPS 180-4 for every input whose padded length fits 32 bits |
| `AccountRecords.RecordLayout` | tools/account.py:11-33 | A record is the fields of the packed structure, one behind the other: magic, version, flags, generation, salt, verifier, checksum, zeros |
| `AccountRecords.DecodeEncode` | tools/account.py:25-43 | What either side writes, the kernel accepts and the host reads back unchanged |
| `AccountRecords.EncodeDecode` | tools/account.py:35-43 | Kernel and host accept the same sectors, and a record that decodes is the encoding of what it decodes to |
| `AccountRecords.CorruptionRejected` | kernel/core/account.c:40-45 | Both reject every corruption of a valid record that is confined to four consecutive bytes |
| `AccountRecords.SelectedIs` | kernel/core/account.c:75-80 | A change starts from a valid record that no valid record outruns, from the first at equal generations, and starts exactly when there is a valid record |
| `AccountRecords.SelectionsAgree` | kernel/core/account.c:57-79 | When every slot is a valid record or has no magic, verify, change and the host's `choose_record` select the same slot |
| `AccountRecords.ChangeActivates` | kernel/core/account.c:67-98 | A change puts the successor record, for the new password and one generation up, into the other slot and makes it active |
| `AccountRecords.NextSaltBits` | kernel/core/account.c:83 | Byte i of the new salt is the old one, each bit changed exactly if the bit 8 (i mod 8) places further up in the generation is set |
| `AccountRecords.NextSaltChanges` | kernel/core/account.c:83 | The salt stays the same if and only if the generation is 0 |
| `AccountRecords.ChangeWraps` | kernel/core/account.c:82 | At the largest generation the successor wraps to zero and the old record stays active |
| `AccountRecords.RunOk` | kernel/core/account.c:67-98 | Over any run of attempts, each with its sector write made or lost: the generation counts the writes, the active slot alternates with them, the other slot holds the previous record, and the last written password is accepted |
| `AccountDriver.AccountStore.Session` | kernel/core/account.c:67-98 | Over any sequence of changes under any schedule of faults, the two sectors on the device go through such a run, and a change reported as successful is one whose write was made |
| `AccountDriver.Equal` | kernel/core/account.c:38 | The constant-time comparison is equality |
| `AccountDriver.CheckRecord` | kernel/core/account.c:40-45 | `record_valid` is the value-level test |
| `AccountDriver.BuildRecord` | kernel/core/account.c:86-92 | The buffer filled byte by byte is the host's encoding of the record |
| `AccountDriver.AccountStore.Verify` | kernel/core/account.c:52-66 | On a healthy device it answers exactly whether the shown record has that password; a fault can only turn yes into no |
| `AccountDriver.AccountStore.Change` | kernel/core/account.c:67-98 | Under any faults the disk is what it was or has exactly the changed slots; it reports success only if the new password is accepted |
| `AccountDriver.ChangeOutcome` | kernel/core/account.c:67-98 | On a healthy device a change of a store in use succeeds if and only if the generation counter is not at its end, or the active record already has that password |
| `FileHandles.FileTable.FindOrCreate` | kernel/core/task.c:285-297 | The look-up of FS_OPEN succeeds exactly when the path is admitted, creating at most that file, and keeps the content of every readable file |
| `FileHandles.FileTable.Open` | kernel/core/task.c:272-310 | It opens exactly the admitted paths of fewer than 95 characters while a slot is free, into a free slot at offset zero, and touches no other handle; whatever the answer, the disk is the one the look-up left |
| `FileHandles.LongestPathNotOpened` | kernel/core/task.c:278-304 | A path of two legal names and 95 characters gets past every check of FS_OPEN up to the copy on any disk that holds it, and with the create flag on any disk where it can be created; `Open` refuses it there |
| `LongestPathDisk.LongestPathExists` | kernel/core/task.c:285-304 | There is a disk, formatted by the host, on which that path names a file |
| `FileHandles.FileTable.Close` | kernel/core/task.c:311-319 | It frees exactly that handle |
| `FileHandles.FileTable.ReadHandle` | kernel/core/task.c:320-337 | It delivers the next bytes of the file, advances only that handle's offset, and returns nothing only when the whole file has been delivered |
| `FileHandles.FileTable.MakeDirectory` | kernel/core/task.c:363-374 | It creates exactly the directory, with the exact status in each case, and keeps every readable file |
| `FileHandles.FileTable.Session` | kernel/core/task.c:272-374 | Over any interleaving of opens, closes, reads and creations, what was delivered through each open handle is a prefix of its file, as long as its offset |
| `FileHandles.ChunksConcatenate` | kernel/core/task.c:320-337 | The chunks of any successive reads concatenate to a stretch of the file from where they started, reach its end once a read returns nothing, and must reach it |
| `FileHandles.CreateKeepsContent` | kernel/core/task.c:285-294 | Creating a node changes the content of no readable file, and stat then reports a new, empty node at the path |
| `FileHandles.FlagsAre` | abi/include/quanta/syscall.h:60-64 | The flags of FS_OPEN by bit number: 2 asks for creation, 4 for a directory, and any bit above is refused |
| `Ipc.TaskLayer.Call` | kernel/core/task.c:465-481 | It is accepted exactly for the first task, its endpoint with the send right, buffers in its memory and a well-formed message; it then records message and payload, makes only the first task wait, and switches to the server |
| `Ipc.TaskLayer.Receive` | kernel/core/task.c:482-498 | It is accepted exactly for a pending call not yet received and buffers that hold it; it then changes the receiver's memory by exactly the two copies and nothing else; the payload delivered is the payload sent, and the message is if and only if the payload agrees with it where the buffers overlap |
| `Ipc.TaskLayer.Reply` | kernel/core/task.c:499-517 | It is accepted exactly after a receive, for the same service and correlation id; it copies message and payload, ends the first task at its return address, and moves on to the third |
| `Ipc.TaskLayer.Exit` | kernel/core/task.c:518-522 | Only the current task ends; the first hands over to the third, any other halts the machine |
| `Ipc.TaskLayer.UserFault` | kernel/core/task.c:529-536 | Only the faulting task ends; control goes to the third task or, from there, the machine halts |
| `Ipc.TaskLayer.Grant` | kernel/core/task.c:537-554 | It appends one capability with both rights under the returned handle, makes an endpoint the task's endpoint, and changes nothing else of any task |
| `Ipc.TaskLayer.Revoke` | kernel/core/task.c:555-576 | It removes exactly the first capability with the handle, clears the endpoint if and only if it is that handle, and changes nothing else of any task |
| `Ipc.TaskLayer.Syscall` | kernel/core/task.c:465-523 | Each call does something exactly when its branch accepts it, and nothing otherwise; at most one operation is accepted per call, in the order call, receive, reply |
| `Ipc.TaskLayer.Run` | kernel/core/task.c:465-536 | Over every run of system calls, faults, grants and revocations: `current` never decreases, a pending request means that the first task waits, and every accepted reply was preceded by exactly one accepted call and one accepted receive, which delivered the payload sent, and is for the service and correlation id of the call |
| `Ipc.MessageLayout` | abi/include/quanta/ipc.h:11-20 | A message is the fields of the packed structure, and is valid with version 1, the length of its payload, no capabilities and no flags |
| `Ipc.HasEndpointIs` | kernel/core/task.c:80-90 | An endpoint may be used by a handle of the task that has every right asked for, bit by bit |
| `Ipc.DeliveredIs` | kernel/core/task.c:491-495 | After the two copies of a receive the payload stands in its buffer, the message stands in its own if and only if the payload agrees with it where the buffers overlap, and no other byte has changed |
| `Ipc.OverlappingReceive` | kernel/core/task.c:482-498 | A run from bootstrap in which the server receives message and payload at one address: the receive is accepted, the payload arrives and the message does not |
| `Shell.AddComponents` | userspace/session.c:839-862 | The push and pop loop over the component rows computes the fold of `.`, `..` and names, and fails exactly when that does |
| `Shell.WriteJoin` | userspace/session.c:893-911 | The output loops write the canonical text, and fail exactly when it does not fit |
| `Shell.Terminal.ResolveInto` | userspace/session.c:864-912 | `path_resolve` writes the canonical text of the folded components, and fails exactly when the specification has none |
| `Shell.Terminal.ChangeDirectory` | userspace/session.c:1342-1350 | The cd command keeps the current directory canonical on the active drive, and changes it exactly when the target resolves to a directory |
| `PathResolve.ResolvedOk` | userspace/session.c:839-892 | Whatever is typed, the resulting components are non-empty, short, free of separators, and none is `.` or `..` |
| `PathResolve.ResolveOne` | userspace/session.c:839-862 | Of one component typed, a dot stays, two dots go up, and a name of at most 23 characters goes down, to a depth of at most eight |
| `PathResolve.ResolveDrive` | userspace/session.c:873-891 | A path typed with its drive starts at the root whatever the current directory is, and one with the other drive is refused |
| `PathResolve.ResolveFixed` | userspace/session.c:864-912 | A canonical path resolves to itself from any current directory |
| `PathResolve.ResolveTwice` | userspace/session.c:864-912 | Resolving `a` and then `b` from there is resolving `a>b` |
| `PathResolve.JoinSplits` | kernel/core/qfs2.c:210-237 | `split_path` takes a canonical path apart into its canonical parent and its last component |
| `PathResolve.ResolveAgrees` | kernel/core/task.c:123-143 | Every output of `path_resolve` is canonical and a fixed point, passes `filesystem_path_valid` for the same drive, makes `find_path` the fold of `find_child` over its components, and is split at its last one |
| `KernelLoader.CopyBytes` | bootloader/uefi/loader.c:94-97 | The byte loop replaces exactly the destination |
| `KernelLoader.AddOverflow` | bootloader/uefi/loader.c:120-124 | The sum, or nothing exactly when it does not fit 64 bits |
| `Elf.HeaderLayout` | bootloader/uefi/loader.c:76-80 | The header is read from the fields of the ELF-64 structure, one behind the other |
| `Elf.HeaderAccepted` | bootloader/uefi/loader.c:150-158 | The headers accepted, by byte offset: ELF, 64 bits, lowest byte first, version 1, executable, x86-64, and a table of program headers inside the image |
| `Elf.ProgramLayout` | bootloader/uefi/loader.c:81-84 | A program header is read from the fields of the ELF-64 structure |
| `Elf.PowerOfTwoIs` | bootloader/uefi/loader.c:168-169 | The test of the alignment by masking finds exactly the powers of two |
| `Elf.LoadableIs` | bootloader/uefi/loader.c:163 | Segments of type 1 are loaded |
| `Elf.HoldsIs` | bootloader/uefi/loader.c:178 | The entry point must be the address of a byte of a load segment |
| `KernelLoader.CheckSegment` | bootloader/uefi/loader.c:160-175 | With 64-bit arithmetic the checks accept exactly the segments that fit file, window and address space |
| `KernelLoader.LoadKernel` | bootloader/uefi/loader.c:142-187 | It succeeds exactly for acceptable images; it writes nothing outside the window even when it fails; on success disjoint segments hold the file's bytes and then zeros |
| `KernelLoader.BuildTables` | bootloader/uefi/loader.c:188-206 | The six table pages hold the specified entries, and nothing else is written |
| `KernelLoader.KernelVisible` | bootloader/uefi/loader.c:188-206 | Walking the tables at a kernel address leads to that offset of the loaded image, which the kernel may write and the user may not reach |
| `KernelLoader.LowVisible` | bootloader/uefi/loader.c:188-206 | Walking the tables in the first gigabyte leads to the same address, under the same rights |
| `KernelLoader.Boot` | bootloader/uefi/loader.c:276-320 | After loading and building, reading any byte of any disjoint load segment at its virtual address through the tables gives the file's byte, or zero past its file size |

## Left out

- Port input and output, interrupts, timers, inline assembly, boot assembly and EFI services: hardware and firmware. Disk transfers and display answers are success-or-failure calls with arbitrary outcomes.
- QFS v1, GPT, exFAT, the standalone ELF validators, device enumeration, image builders and installers: they would repeat the same kind of claims in simpler form.
- The desktop, login, explorer and window code of the session: user interface.
- `list_dir` of the host tool: `HostAgreement.KernelLists` covers the same question for the kernel.
- The copying of image bytes into code pages by `create`: only the mappings are modelled.
- The textual checks on host paths in `_parents` (leading slash, doubled slash): a path is given by its components, so such texts cannot be written down; an empty component stands for a doubled slash.
- Userspace library wrappers around the system calls: the kernel interface is modelled.
- Uniqueness of capability handles over a whole run, and that an IPC caller resumes: the code provides neither.
- The mode set-up of the graphics adapter in `quanta_arch_display_initialize` and its checks of format, pitch and size: hardware; its bounds on the screen and its maps are modelled.
- The gap between the end of a row and the next in display memory, when the pitch is larger than the row.
- Qfs2Driver.Qfs2.CreateNode: when a transfer of its writes fails it confines the change to one free record and one free entry and does not say what they hold, because a straddling entry may then be torn.
- Qfs2Driver.Qfs2.FindChild: needs an entry table below sector 2^23, beyond which its 32-bit byte offset wraps.
- Qfs2Image.CreateOk: needs the inode and entry regions disjoint and on the device, which `load_super` does not check and `build_volume` establishes (`HostAgreement.SoundBuilt`).
- DisplayBuffer.Display.FillRoundedRect: needs a radius below 2^15, beyond which the signed squares of its corner loop overflow.
- DisplayBuffer.Display.DrawGlyph: needs coordinates that do not wrap in 32 bits, which the bounds checks of the original assume; the same holds for the text command.
- DisplayBuffer.Display.Scroll: needs a screen that holds the terminal area, as the original assumes.
- Sha256.Hash: needs an input length that leaves room for the padding in 32 bits.
- AccountRecords.RunOk: needs a generation counter that does not reach its end within the run; `AccountRecords.ChangeWraps` says what happens there.
- HostWriter.BuildVolume: the same path given twice is excluded; the original then packs two inode records with one number.
- HostReadBack.RoundTrip: covers volumes whose used sectors lie below 4096, since `build_volume` has a one-sector bitmap and raises otherwise.
- UserMemory.AcceptedRange: is for addresses that the storage is not mapped over.
- FileHandles.FileTable.ReadHandle: the kernel's buffer holds 256 bytes, so files of 256 bytes and more cannot be read through a handle; the content of a handle is then empty.
