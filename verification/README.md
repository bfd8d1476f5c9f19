# A verified model of the kernel, its file system and its device protocols

This project models, in Dafny, the parts of a small ARM kernel that carry its
state: the CWFS2 file system (`kernel/fs2.c`), the process kernel
(`kernel/hilevel.c`) with the dining philosophers that run on it
(`user/philosophers.c`), the pipe ring buffer (`kernel/pipe.c`), the hex disk
protocol at both ends (`device/disk.c`, `device/PL011.c`, `device/disk.py`) and
the decimal conversions of `user/libc.c`. The code is modelled as it stands,
including where it departs from its own documentation; there the exact condition
under which it does what it means to do is proved.

`dafny verify dfyconfig.toml` checks everything.

## How it is laid out

File system:

- `Fs2Layout`: on-disk structures and region tables. A table stands for a flat
  list of block addresses, which is what all address computations are proved against.
  A block read as something else than it was stored as shows the same bytes
  (`BytesOf`, `EntriesOf`, `InodesOf`, `HeaderOf`), so file contents can turn up as
  directory entries where the code lets them.
- `Fs2Bytes`: where each field of those structures lies, and that what was stored is
  read back.
- `Fs2State`: what the blocks of a volume mean. Every allocated block has one
  owner (`Owned`), the inode table is what disk and header hold (`Stored`), the
  inodes reachable from the root form a tree (`Tree`), and together these make a
  volume `Consistent`. `View` is the abstract volume: for each inode a sequence of
  bytes or a sequence of directory entries.
- `Fs2Path`, `Fs2Update`, `Fs2Dirs`, `Fs2Tree`: resolution of paths, and what
  block writes, allocations, directory and inode changes do to a volume, as
  lemmas over values.
- `Fs2Kept`: what every call keeps, failed ones included, even after names and
  inodes have come apart: each block has one owner, on the disk and as the caches
  show it.
- `Fs2Volume`: the class `Volume`, with the fields of `fs2_volume_t` and the disk.
  `Owning()` is the invariant of `Fs2Kept`; every method promises it at every exit.
  `Valid()` says besides that the volume is consistent and that the three caches
  agree with the disk; the calls that lose it are named in `Rm` and `Write`. From a
  valid volume every method states the new abstract volume `Nodes0()` as a function of the old
  one, so nothing a caller sees depends on what happens to be cached, with the one
  exception stated in `Rm`. `Usable()` is what a call needs: a valid volume, or one
  that has lost its tree but whose directories list inodes in use only (`AllInUse`).
- `Fs2Laws`, `Fs2Usage`: laws across operations, calls one after the other, and any
  run of calls from the formatting of a disk on.
- `Fs2Instances`: runs from the formatting of a disk on that reach the cases in
  which a call does not do what it means to.

Process kernel:

- `Descriptors`, `KernelState`, `KernelCalls`: descriptor tables, the kernel's
  state and the step each system call and tick takes, as functions; `Call` is the
  dispatcher, `Run` a sequence of calls and ticks.
- `CallMeanings`: what each call comes to for the caller and the others, said of the
  states before and after it.
- `KernelHandlers`: the class `Kernel` with the kernel's arrays; each handler is
  proved to take its step.
- `DescriptorCounts`, `Semaphores`, `RoundRobin`, `Ageing`: reference counts,
  semaphore laws, and the two schedulers over whole runs.
- `Philosophers`: the philosophers as processes of that kernel, from the laying of
  the forks on.

The rest: `PipeRing`, `DiskLink`, `Decimal`, and `Common` for what several share.

Ghost flags named `s`, `kept` and `ready` appear where a method's code runs on
inputs for which its main result is not claimed: the method is then still shown to
be free of index errors and to leave blocks to their owners, and the result is
stated under the flag.

## Findings

Each is stated with its exact condition by the member named.

- Format on a zeroed volume structure takes inode block 0 for cached at the
  header's address: the call allocates no inode block, and changes nothing on the
  disk but block 1 and then block 0, which becomes the header (`Volume.Format`,
  exactly if the cached inode index is 0). At boot, format runs after a failed
  mount, on a structure that is still zeroed (`kernel/hilevel.c:632-646`). On a
  structure in use whose first inode block is cached, the root's inode goes to where
  that block was before, and again no inode block is allocated.
- A write whose last block is partial, and not its first, fills it from the
  beginning of the caller's buffer (`WriteFaithful`, `TailExample`).
- The size of a region is asked for as an 8-bit number: a write that is 256 blocks
  or more short comes to ask for a region of 0 blocks, and a write of nothing at the
  end of a file's last block does at once (`EmptyRequest`). It is given one exactly
  if it finds a slot for it behind what its first request gets; the file then holds
  the old bytes and as many new ones as `Reach` says, and the empty region stays in
  use (`Volume.Write`, `WriteFills`, `EmptyRegion`). A run whose writes have between
  one byte and 255 blocks leaves no region empty (`FormatAndRun`).
- A lookup takes the first entry that begins with the name, and never searches the
  last block of a directory (`LookupExactIff`, `OneBlockBlind`, `PrefixExample`); what
  is there appears when the directory grows (`MissingThen`).
- `fs2_create` reports success when the new entry found no room (`Volume.CreateFile`,
  `CreationUnlisted`), takes the root for a parent whose path is one character long,
  which is the wrong directory unless that is '/' or begins one of the root's first
  two names, and the root has two blocks (`ParentAgrees`, `ParentExample`), and gives
  "/name" a name with the slash in it (`LeadingSlashName`, `LeadingSlashLost`).
- `fs2_unlink` only sees the first 32 entries of each block (`ComparedSlot`); a
  removal that fails for that reason leaves the file listed, and without its
  blocks unless it is the last inode (`Volume.Rm`, `RemovalOutOfReach`).
- The last entry of a directory is moved through a cache that may be stale. Exactly
  if the cache shows another inode there, the last file of the directory loses its
  entry, though the call reports success (`Volume.Rm`, `FreshMoves`). Filling the
  root with 128 files, a removal, a creation and another removal do it: two entries
  then name one file, and no path leads to the file created last (`StaleRemoval`).
  It takes a directory of more than 128 entries (`SmallFresh`).
- `fs2_rm` of an empty directory by way of its own entry ("dir/." and "dir/") wipes
  it and fails, or, if it is the last inode, drops its "." and succeeds; it stays
  where it is either way (`Volume.Rm`, `RemovalSelf`, `RemovalOfDot`).
- A process that exits or blocks when nothing else can run keeps the processor
  (`ExitGood`, `WaitGood`); a process that kills itself keeps running
  (`KillGood`); a fork that finds no memory for the child's stack leaves a second
  process marked as executing (`ForkGood`); a failed open uses up a slot of the
  global table, and a pipe two, which no later call frees (`OpenMeans`, `PipeMeans`,
  `RunLasting`); SEM_INIT hands units to waiters on the way (`InitSets`), and its
  guard tests the number of units where it means the semaphore, so that it answers
  1 for semaphores that do not exist (`InitGuard`); reading from the serial line
  always returns 0 (`Kernel.ReadLine`).
- A lookup that leads to an inode beyond the table takes blocks into use that the
  header on the disk does not know of; blocks then no longer have one owner. In any
  run from the formatting of any disk on, with any calls, blocks keep their owners
  until a directory lists an inode that is not in use (`FormatAndRun`). From a whole
  volume the only call that brings this about is a removal that moves an entry for
  such an inode into the gap, out of a general purpose cache that does not show the
  directory's last block as the disk has it (`OpInUse`). The cache does that in two
  ways. It may still be on what an older volume left on the disk (`StrayEntry`). Or
  it holds bytes a caller has written: a write that is given a region of no blocks,
  and then no other, leaves its first bytes there, on the first free block, and if a
  directory grows by that block, a removal takes them for its last entry
  (`BytesAsEntry`). Calls that pass `MayWrite` and `MayRemove` keep the volume whole
  on any disk (`FormatAndRunOrderly`, `OrderlyMoves`).
- A wiped directory seems to begin with block 0. Read as entries, the header's first
  two name no inode in use but the root (`HeaderNames`); further on it lists inodes
  beyond any table (`HeaderLists`), which is why `AllInUse` is asked of each call,
  and not of the disk once.
- A file may end behind its blocks. A read then stops at the first whole block that is
  missing, but returns bytes for a missing last part (`Volume.Read`). A write that starts behind the end of a file,
  or that is given a region of no blocks, leaves such a file (`Volume.Write`).
- The disk process stops on a request for an address of 2^31 or more, and on a
  write of no bytes (`WrHandled`, `RdHandled`).

## Model

| member | source | states |
|---|---|---|
| Fs2Layout.FindBlk | kernel/fs2.c:445-455 | The address loop returns entry `bindex` of the flat list of block addresses a region table stands for, or 0 beyond its end. |
| Fs2Layout.FlatAppend | kernel/fs2.c:111-112 | Filling the first free slot of a table appends the new region to the address list and moves no old address. |
| Fs2Layout.WalkStep | kernel/fs2.c:211-224 | The incremental (i, j) walk over regions visits exactly the block the direct address computation gives, and runs off the table exactly after the last one. |
| Fs2Bytes.EntryBytes | kernel/fs2.h:65-72 | Where a directory entry's fields lie in a block. |
| Fs2Bytes.WordExample | kernel/fs2.h:65-103 | A number has its least significant byte first: 258 is 2, 1, 0, 0. |
| Fs2Bytes.EntriesRoundTrip | kernel/fs2.h:65-72 | Entries read out of the bytes they were stored as are those entries. |
| Fs2Bytes.NodeBytes | kernel/fs2.h:50-71 | Where an inode's fields lie in a block. |
| Fs2Bytes.InodesRoundTrip | kernel/fs2.h:50-71 | Inodes read out of the bytes they were stored as are those inodes. |
| Fs2Bytes.HeaderBytes | kernel/fs2.h:74-103 | Where the header's fields lie in its block. |
| Fs2Bytes.HeaderRoundTrip | kernel/fs2.h:74-103 | A header read out of the bytes it was stored as is that header. |
| Fs2State.FileSlice | kernel/fs2.c:619-643 | Within a block, the bytes of a file are the bytes of the disk block its address map names. |
| Fs2State.OwnersDisjoint | kernel/fs2.c:48-69 | Two places in the region tables of inodes, or of an inode and the header, or two of the header, are the same block only if they are the same place; every one lies inside [1, next_block). |
| Fs2State.NodeFrame | kernel/fs2.c:34-39 | What an inode stands for depends on the blocks it owns and on no others. |
| Fs2State.LookupLive | kernel/fs2.c:197-233 | A lookup from a reachable directory leads to a reachable inode. |
| Fs2State.HeaderNames | kernel/fs2.h:65-103 | The header's bytes, read as directory entries: the first two name no inode but the root, or one beyond any table. |
| Fs2State.HeaderLists | kernel/fs2.h:65-103 | The header of a volume with four inode regions, read as directory entries, lists an inode beyond any table. |
| Fs2State.EntryBlock | kernel/fs2.c:296-324 | The slot search of fs2_add_dir_entry finds the block of entry `eof` exactly if the directory's blocks are not full, and otherwise the first free region slot. |
| Fs2State.FirstMatch | kernel/fs2.c:225-228 | The first entry at or after an index whose name begins with the given characters; none before it does. |
| Fs2Path.CompLen | kernel/fs2.c:250-251 | Length of the first '/'-free component. |
| Fs2Path.ScanComponent | kernel/fs2.c:250-251 | The component loop stops at the first '/' or the end. |
| Fs2Path.ScanSlashes | kernel/fs2.c:263 | The separator loop skips a whole run of '/'. |
| Fs2Path.FindSplit | kernel/fs2.c:765 | The backward loop of fs2_create stops at the last '/' behind the first character, or at the first character. |
| Fs2Path.StripSlashes | kernel/fs2.c:767-769 | The second backward loop stops at the last character before the run of '/'. |
| Fs2Path.ResolveBelow | kernel/fs2.c:237-268 | Resolving a path below a resolved one is resolving the rest from the inode found. |
| Fs2Path.MissingBelow | kernel/fs2.c:748-780 | If a path is missing and its parent part resolves, the parent is a directory that has no such name. |
| Fs2Path.SplitAround | kernel/fs2.c:765-769 | fs2_create cuts a path into parent, one or more '/', and a name free of '/'. |
| Fs2Update.PutBlock | kernel/fs2.c:718-722 | Writing a data block of one file keeps header, inodes, ownership and the view of every other inode. |
| Fs2Update.GrowInode | kernel/fs2.c:645-658 | Giving an inode the next free blocks keeps ownership disjoint and every other view. |
| Fs2Update.GrowthRefusalMeans | kernel/fs2.c:645-652 | A file is full exactly if all its 23 slots are in use. |
| Fs2Update.FreeSlotMeans | kernel/fs2.c:645-651 | An inode has room for a region exactly if one of its 23 slots is unused. |
| Fs2Update.WriteGrow | kernel/fs2.c:692-697 | Growing a file in the middle of a write keeps what was written, and the block returned is the one at the old capacity index. |
| Fs2Update.WritePut | kernel/fs2.c:698-704 | Storing a chunk behind the bytes the file holds extends them by exactly that chunk. |
| Fs2Update.WriteFinish | kernel/fs2.c:660-664 | Recording the end of file, be it at the last byte stored or behind it, and saving the inode block makes the volume consistent again, with one file changed: it begins with the bytes stored and shows as many as its end and its blocks allow. |
| Fs2Update.SaveInodes | kernel/fs2.c:41-46 | Saving the cached inode block makes the cached inodes the stored ones and changes no view. |
| Fs2Update.GrowthSize | kernel/fs2.c:692-731 | The region sizes a write asks for, block by block: the missing blocks if they fit in a byte, the default for a last partial block. |
| Fs2Update.OverStep | kernel/fs2.c:692-731 | The next missing block of a write that is 256 blocks or more short, or of nothing at the end of a file's blocks: a first request for the missing blocks modulo 256 is given or refused; the next one is for a region of no blocks, which is given exactly if there is a slot, at the number of bytes `Reach` says. |
| Fs2Update.NotHollow | kernel/fs2.c:685-740 | A write that is given no region of no blocks stores everything exactly if it fits and has room, and otherwise up to the end of the file's blocks, or, if it does not fit, `Reach` bytes. |
| Fs2Update.ReachBounded | kernel/fs2.c:693-716 | A write that does not fit is one of nothing, or of more than 255 blocks and at least 255 blocks past the capacity; `Reach` is then at least a block short of what was to be written. |
| Fs2Update.AsidePut | kernel/fs2.c:698-722 | What is stored after that, in a block nobody owns or behind the bytes stored so far, moves none of them and no other file. |
| Fs2Update.TreeFile | kernel/fs2.c:667-740 | New contents for a file leave the tree of names as it was. |
| Fs2Dirs.EntryPut | kernel/fs2.c:312-317 | Storing an entry in the next slot appends exactly one entry, whether in an old block or a new one. |
| Fs2Dirs.PutEntry | kernel/fs2.c:302-319 | The same for a directory in the cache, with the whole volume's invariants and every other view kept. |
| Fs2Dirs.GrowDir | kernel/fs2.c:325-331 | A new region for a directory keeps its entries and every other view. |
| Fs2Dirs.CreateRefusalMeans | kernel/fs2.c:101-108 | A creation that is refused blames the header exactly if a region of inodes is needed and all its 800 slots are in use. |
| Fs2Dirs.AddIregion | kernel/fs2.c:107-119 | A new region of inode blocks moves no inode and no view. |
| Fs2Dirs.SwitchBlock | kernel/fs2.c:122-137 | Saving the cached inode block and loading another keeps the inode table that disk and cache hold together. |
| Fs2Dirs.FreshDir | kernel/fs2.c:348-363 | A new directory inode holds exactly "." and "..", naming itself and its parent. |
| Fs2Dirs.FreshFile | kernel/fs2.c:348-351 | A new file inode is an empty file. |
| Fs2Dirs.ComparedSlot | kernel/fs2.c:471 | Comparing slot k % 32 looks at an entry already seen unless k % 128 < 32, so only the first 32 entries of a block can be found. |
| Fs2Dirs.DroppedSame | kernel/fs2.c:472-491 | Overwriting an entry with the last one and dropping the last loses that entry and no other, as multisets. |
| Fs2Dirs.RemoveEntry | kernel/fs2.c:472-491 | The same on disk, across blocks, with every other view kept. |
| Fs2Dirs.WipeNode | kernel/fs2.c:517-519 | Wiping an inode's region table leaves it without blocks and keeps ownership. |
| Fs2Dirs.FreshMoves | kernel/fs2.c:480-484 | The entry moved into the gap names the last entry's inode exactly if both share a block, or the cache is not on the last block, or shows the right inode there. |
| Fs2Dirs.SmallFresh | kernel/fs2.c:480-484 | In a directory of at most 128 entries the last entry itself is moved, whatever is cached. |
| Fs2Tree.TreeLink | kernel/fs2.c:364-370 | A new inode entered in a reachable directory joins the tree. |
| Fs2Tree.TreeSpare | kernel/fs2.c:369-377 | A new inode whose entry found no room is in the table but not in the tree. |
| Fs2Tree.LinkAt | kernel/fs2.c:457-498 | A leaf below its parent is named by exactly one entry of it. |
| Fs2Tree.TreeRemove | kernel/fs2.c:500-536 | Taking a leaf out of its parent by swapping in the last entry leaves a tree without that leaf. |
| Fs2Tree.LinkLost | kernel/fs2.c:480-491 | If the moved entry names another inode than the last one did, no tree without the removed leaf is left. |
| Fs2Tree.RemovalFound | kernel/fs2.c:500-536 | What a removal carried out comes to: a tree without the leaf exactly if the cache was fresh. |
| Fs2Tree.RemovalSelf | kernel/fs2.c:457-536 | A directory reached through its own entry loses its blocks, or its ".", and keeps its place. |
| Fs2Tree.HitParent | kernel/fs2.c:237-268 | A resolved path ends in a directory of the tree, at its entry for itself, for its parent, or for one of its children. |
| Fs2Kept.KeptNoSharing | kernel/fs2.c:48-69 | Blocks kept by their owners: no block is listed twice by the inodes and the inode table, as stored or as cached, each lies in [1, next_block), and no region in use is empty. |
| Fs2Kept.MountKept | kernel/fs2.c:179-193 | A consistent disk, mounted, has its blocks kept by their owners. |
| Fs2Kept.KeptMount | kernel/fs2.c:179-193 | What blocks belong to whom does not hang on the caches: forgetting them keeps it. |
| Fs2Volume.Volume.FindFreeRegion | kernel/fs2.c:48-69 | Bump allocation: the next rsz blocks, or DISK_FULL and nothing changed, exactly if they do not fit. |
| Fs2Volume.Volume.GetIblock | kernel/fs2.c:78-120 | An inode block in the table is loaded from its address; one beyond it is allocated at the address a later lookup computes, or the header (HBLOCK_FULL) or else the disk (DISK_FULL) is full. |
| Fs2Volume.Volume.GetIblockC | kernel/fs2.c:122-137 | The cached wrapper: a hit changes nothing; a miss saves if told to, and stops if that fails, then loads or allocates. |
| Fs2Volume.Volume.LoadDblockC | kernel/fs2.c:140-150 | The directory cache moves to the address, reading the block unless told not to. |
| Fs2Volume.Volume.LoadGpC | kernel/fs2.c:159-170 | The same for the general purpose cache. |
| Fs2Volume.Volume.WalkDblock | kernel/fs2.c:211-224 | The step all directory loops share loads block b of the directory at step b. |
| Fs2Volume.Volume.ScanDir | kernel/fs2.c:208-232 | The search loop returns what the abstract lookup does: the first entry that begins with the name, outside the last block. |
| Fs2Volume.Volume.FindInDirR | kernel/fs2.c:197-233 | Looking a name up in a directory returns the abstract lookup's answer, errors included, and keeps the caches coherent. |
| Fs2Volume.Volume.FindFile | kernel/fs2.c:237-268 | Path resolution terminates and returns the child and parent that folding lookups over the components gives, or the same error. |
| Fs2Volume.Volume.ReadRest | kernel/fs2.c:628-642 | The loop over whole blocks and the last partial block return the file's bytes. |
| Fs2Volume.Volume.Read | kernel/fs2.c:587-643 | fs2_read succeeds on every file and returns its bytes from the cursor on, as many as asked for and there are, and exactly those if the file's blocks reach to its end; if they do not, exactly how many bytes come (`Delivered`), the file's own first. Directories and missing paths are refused; nothing changes. |
| Fs2Volume.Volume.GrowFile | kernel/fs2.c:645-658 | One more region of the given size, keeping the old address map; FILE_FULL exactly if no slot is unused, else DISK_FULL, and nothing changed. |
| Fs2Volume.Volume.WriteBlocks | kernel/fs2.c:685-740 | The three phases of a write, for every size: the bytes that land behind the old prefix and how far they come; a write that stops early ends the file where it stopped; one that is given a region of no blocks leaves that region and the bytes stored up to then; one that begins behind the end of the file leaves the file's own bytes. |
| Fs2Volume.Volume.Write | kernel/fs2.c:667-740 | For every cursor and every size the volume stays consistent, unless the write is given a region of no blocks behind the last block of the disk, where the storing fails; then that region is in use and nothing else has changed. For every cursor within the file: exactly if it is given a region of no blocks, fs2_write leaves that in use, behind old[..cursor] and the stated number of bytes, with the end of file where it claims to have written to; if nothing more can be given then (`NothingMore`), the general purpose cache is left on the first free block, with the first bytes of data in it. Otherwise the file is old[..cursor] plus the bytes that landed, and all were written exactly if the write fits and the blocks and the slot it asks for are there; if they are not, it goes as far as the file's blocks, and if it does not fit, `Reach` bytes far. No other file or directory changes, and blocks keep their owners. |
| Fs2Volume.Volume.AddDirEntry | kernel/fs2.c:294-335 | Exactly one entry is appended, growing the directory by a region if it is full; success exactly if there is room; on failure nothing changes. |
| Fs2Volume.Volume.InitInode | kernel/fs2.c:270-290 | A blank inode, with a first region for a directory unless the disk is full. |
| Fs2Volume.Volume.CreateFile | kernel/fs2.c:339-379 | A creation succeeds exactly if an inode slot and the blocks for it are there; whether its entry was stored (`linked`) is exactly whether the parent had room, which the outcome does not show. |
| Fs2Volume.Volume.CreateIn | kernel/fs2.c:339-379 | Below a directory of the tree a creation keeps the whole volume valid, failed or not. |
| Fs2Volume.Volume.Create | kernel/fs2.c:748-782 | fs2_create: each refusal has its outcome, HBLOCK_FULL exactly if the header has no slot for the region of inodes needed, DISK_FULL if blocks are missing; otherwise the new inode is entered in the directory its parent path names (the root if that path has one character), at the exact cost in blocks. |
| Fs2Volume.Volume.FindLink | kernel/fs2.c:458-471 | The loop of fs2_unlink finds the first link among the entries it looks at, or there is none. |
| Fs2Volume.Volume.Unlink | kernel/fs2.c:457-498 | Exactly the found entry goes, the last entry taking its place as the cache shows it; NO_FILE and nothing changed if no link is seen; blocks keep their owners, found or not. |
| Fs2Volume.Volume.DropInode | kernel/fs2.c:516-535 | The wiping, unlinking and saving of a removal, for every outcome; at every exit blocks keep their owners, and a success leaves disk and caches in agreement. |
| Fs2Volume.Volume.Rm | kernel/fs2.c:500-536 | fs2_rm: the root and non-empty directories are refused; for a leaf within reach of fs2_unlink the volume stays valid and the leaf leaves the tree exactly if the cache is fresh, and otherwise another file is lost; one out of reach stays listed, without its blocks unless it is the last inode; a directory named through itself stays. Blocks keep their owners in every case. |
| Fs2Volume.Volume.Format | kernel/fs2.c:387-415 | Bad arguments are refused exactly if header, first inode region and root directory do not fit; otherwise formatting succeeds on a disk that may hold anything, and makes a valid volume with a root directory in the blocks behind the first inode region if the cached inode index was not 0. If it was 0, on a zeroed structure or one in use, there is no inode region: the cached inode block, with the root in it, goes to the address it was cached at, and the disk differs there, in block 1 and in the header alone. |
| Fs2Volume.Volume.LoadVolume | kernel/fs2.c:179-193 | Mounting a disk that holds a consistent volume gives that volume, and mounting the one in memory again, consistent or not, keeps the ownership of its blocks; success exactly if block 0 has the identifier, INVALID_FS if not, DISK_RD_ERR if there is no block 0. |
| Fs2Laws.ResolveIsFold | kernel/fs2.c:237-268 | Path resolution is the fold of the lookup over the path's components. |
| Fs2Laws.ComponentsOfJoin | kernel/fs2.c:249-266 | Joining names with '/' and taking components gives the names back. |
| Fs2Laws.LookupExactIff | kernel/fs2.c:216-228 | A lookup finds the entry of that name, or rightly none, exactly if the first entry seen that begins with it has no longer name and none of that name is in the unsearched block. |
| Fs2Laws.OneBlockBlind | kernel/fs2.c:216-224 | In a directory of one block nothing is ever found. |
| Fs2Laws.AddedLookup | kernel/fs2.c:294-335 | Adding an entry keeps every successful lookup; the new entry is found exactly if no earlier one begins with its name and it is not in the last block. |
| Fs2Laws.ResolveKeepsFiles | kernel/fs2.c:667-740 | A write changes no path. |
| Fs2Laws.CreateKeepsPaths | kernel/fs2.c:339-379 | A creation keeps where every resolving path leads. |
| Fs2Laws.PadMatches | kernel/fs2.c:310 | A stored name matches exactly the names it begins with: what lies behind it matches nothing. |
| Fs2Laws.MissingThen | kernel/fs2.c:225 | A name missing in a directory is found after an entry has been added exactly if the new name begins with it and the entry is not in the last block, or if the directory was full and an old entry of its last block begins with it. |
| Fs2Laws.CreateKeepsMisses | kernel/fs2.c:339-379 | A path that led nowhere before a creation does so afterwards, with the same outcome, unless it looks up such a name in that directory. |
| Fs2Laws.ThroughFile | kernel/fs2.c:203-205 | A path through a file ends in BAD_FTYPE, or in INVALID_PATH if its next component is too long. |
| Fs2Laws.CreateResolves | kernel/fs2.c:748-782 | Every path fs2_create accepts leads to the new inode, in the directory it was entered in, exactly if the entry was stored where lookups search, under a name that fits and that no unseen entry begins with, and the parent part of the path leads to that directory. |
| Fs2Laws.ParentAgrees | kernel/fs2.c:764-772 | The directory a file is entered in is the one the parent part of its path leads to exactly if that part has two characters or more, or none, or the root has two blocks or more and its one character is '/' or begins one of the root's first two names. |
| Fs2Laws.TreeRooted | kernel/fs2.c:348-363 | In every tree the first two entries of the root, and no others, name the root, as `ParentAgrees` asks. |
| Fs2Laws.ParentExample | kernel/fs2.c:772 | "a/b" goes into the root where a is a directory. |
| Fs2Laws.LeadingSlashName | kernel/fs2.c:766 | A path whose only '/' is its first character is created under a name that includes it. |
| Fs2Laws.LeadingSlashLost | kernel/fs2.c:225 | Such a name is found under no component. |
| Fs2Laws.NoPathTo | kernel/fs2.c:500-536 | No path leads to an inode that has left the tree. |
| Fs2Laws.DroppedLookup | kernel/fs2.c:472-491 | Removing an entry keeps what every unambiguous name finds. |
| Fs2Laws.RemoveKeepsPaths | kernel/fs2.c:500-536 | A removal keeps where every other path leads that looks up only unambiguous names in the directory it takes the entry from. |
| Fs2Laws.WriteFaithful | kernel/fs2.c:724-739 | A write stores the caller's bytes, whatever they are, exactly if it needs no partial block behind its first block. |
| Fs2Laws.TailExample | kernel/fs2.c:737 | 4097 bytes at offset 0: the last byte stored is the caller's first. |
| Fs2Laws.EmptyRequest | kernel/fs2.c:693-716 | A region of no blocks is asked for exactly by a request for a multiple of 256 blocks, 0 included; a write that misses 256 blocks or more comes to ask for one. What such a write leaves is said by `Volume.Write`. |
| Fs2Laws.RegionExample | kernel/fs2.c:693-695 | A write of nothing, or of 256 blocks, to a new file is given a region of no blocks. |
| Fs2Laws.PrefixExample | kernel/fs2.c:225 | Looking for "a" where only "ab" is finds "ab". |
| Fs2Laws.DiskDetermines | kernel/fs2.c:179-193 | The disk alone determines header, inodes and contents of the volume it holds. |
| Fs2Usage.WriteThenRead | kernel/fs2.c:587-740 | For every write that fits and has room, and every range: what is read back is the old prefix and the bytes that landed, which are the caller's unless a partial block lies behind the first; every other file and every path is as before. |
| Fs2Usage.CreateThenFind | kernel/fs2.c:237-268 | A created path, whatever its form, is found with the old next inode number exactly under the condition above; other paths that led somewhere keep their result, and so do those that led nowhere, unless they look up a name that has appeared in that directory. |
| Fs2Usage.BelowFile | kernel/fs2.c:203-205 | What lies below a file can be neither found nor created: both calls say BAD_FTYPE. |
| Fs2Usage.RemoveThenFind | kernel/fs2.c:500-536 | A removed file or empty directory is found under no path, every path that does not pass through it and looks up unambiguous names in its directory leads where it did, and that directory has lost the one entry and no other, as multisets, if the cache shows its last one. |
| Fs2Usage.Remount | kernel/fs2.c:179-193 | Mounting again gives the volume that was in memory. |
| Fs2Usage.RunOps | kernel/fs2.c:500-782 | Any sequence of creations, writes, reads, removals and mounts, with any arguments and failed ones included, on any volume whose blocks have their owners, whatever bytes it holds, keeps the ownership of blocks up to and including the first call after which a directory in use lists an inode that is not (`AllInUse`, which is told from disk and cache); regions stay non-empty if no write is of nothing or of more than 255 blocks. |
| Fs2Usage.FormatAndRun | kernel/fs2.c:48-69 | From the formatting of a disk on that may hold anything, over every such run: no block belongs to two inodes, or to an inode and the inode table or the header, all lie below next_block, and no region in use is empty if no write is of nothing or of more than 255 blocks. |
| Fs2Usage.OpInUse | kernel/fs2.c:500-782 | In a whole volume whose directories list inodes in use only, a call ends that exactly if it is a removal that succeeds in finding its entry and moves into the gap, from the general purpose cache, an entry for an inode not in use. |
| Fs2Usage.RemovedInUse | kernel/fs2.c:480-491 | After a removal the directories list inodes in use only exactly if the entry that took the gap names one. |
| Fs2Usage.OrderlyMoves | kernel/fs2.c:480-484 | A removal that `MayRemove` lets pass is no such removal. |
| Fs2Usage.MayWrite | kernel/fs2.c:667-695 | Before a write it can be told from header and inode whether it starts within the file and is given no region of no blocks. |
| Fs2Usage.MayRemove | kernel/fs2.c:457-536 | Before a removal it can be told from the directory and the caches whether it is refused, or finds its entry, goes by another directory's entry, and moves the last entry's own inode into the gap. |
| Fs2Usage.RunOrderly | kernel/fs2.c:500-782 | Of any sequence of calls, those that pass these checks keep the volume consistent and the caches coherent, and regions non-empty. |
| Fs2Usage.FormatAndRunOrderly | kernel/fs2.c:387-415 | The same from the formatting of a disk on that may hold anything: the volume is consistent, no block has two owners, no region in use is empty. |
| Fs2Usage.WriteFills | kernel/fs2.c:667-740 | A write within a file leaves no region empty exactly unless it is given one of no blocks: it does not fit, and there is a slot for that region behind what its first request gets. |
| Fs2Instances.MakeStale | kernel/fs2.c:480-484 | From an unformatted disk: format, 129 creations and a removal end in a valid volume whose cache shows an outdated last entry of the root. |
| Fs2Instances.StaleRemoval | kernel/fs2.c:480-484 | One more removal reports success, leaves two entries for one inode, and none, nor any path, for the file created last. |
| Fs2Instances.RemovalOutOfReach | kernel/fs2.c:471 | With 128 files in the root, the removal of the 31st, after bytes have been written to it, fails; the file is still found, and its inode has no blocks. |
| Fs2Instances.RemovalOfDot | kernel/fs2.c:500-536 | A new directory removed as "d/.": the call fails and takes its blocks if a file was created after it, and otherwise succeeds and takes its "."; "d" is found either way. |
| Fs2Instances.CreationUnlisted | kernel/fs2.c:369-371 | On a full disk with a root of one block, the 127th creation succeeds, and no path leads to the file. |
| Fs2Instances.EmptyRegion | kernel/fs2.c:693-695 | From the formatting on: a new file, and a write of nothing or of 256 blocks to it, leave a region of no blocks in use. |
| Fs2Instances.StrayEntry | kernel/fs2.c:122-137 | A disk that holds what reads as directory entries, formatted while the general purpose cache is on one of them: 128 creations and a removal move such an entry into the root, and loading the inode its name leads to takes blocks into use that the header on the disk does not know of. |
| Fs2Instances.BytesAsEntry | kernel/fs2.c:480-484 | From the formatting of any disk on: a write of 256 blocks of the caller's bytes is given an empty region and leaves its first bytes in the cache, on the block the root then grows by; a removal takes them for the root's last entry, and looking up the name they spell takes blocks into use that the header on the disk does not know of. |
| KernelState.BitSet | kernel/hilevel.c:219 | Setting a clear bit of the allocation word by addition changes that bit only. |
| KernelState.BitClear | kernel/hilevel.c:445 | Subtracting a set bit clears that bit only. |
| KernelState.AheadMeans | kernel/hilevel.c:159-165 | The cyclic scan finds another process exactly if one can run. |
| KernelState.NextGood | kernel/hilevel.c:155-175 | A hand-over keeps exactly one process executing, exactly if the current one can go on or another can run, and disturbs nobody's registers. |
| KernelState.TickGood | kernel/hilevel.c:206-211 | So does a timer tick, always. |
| KernelState.ForkGood | kernel/hilevel.c:453-497 | A fork adds the least free process number; one process is executing afterwards exactly if there was memory for the child's stack or no room for a child. |
| KernelState.ForkRegisters | kernel/hilevel.c:456-491 | The child's registers differ from the parent's in the result and in the stack pointer, which keeps its offset in the stack; nobody else's change. |
| KernelState.KillGood | kernel/hilevel.c:506-516 | A kill removes one process from the set; the invariant is kept exactly if it is not the caller. |
| KernelState.ExitGood | kernel/hilevel.c:433-449 | An exit removes the caller and hands over, exactly if another process can run. |
| KernelState.PostGood | kernel/hilevel.c:526-564 | A post keeps the invariant and everybody's registers. |
| KernelState.WaitGood | kernel/hilevel.c:570-602 | A wait keeps the invariant exactly if the units are there or another process can run. |
| KernelCalls.CallGood | kernel/hilevel.c:698-853 | For every system call: one process is executing afterwards exactly if the call was safe, and nobody else's registers change. |
| KernelCalls.CallFiles | kernel/hilevel.c:700-853 | Every call keeps the reference counts right, a fork if it has memory. |
| KernelCalls.RunAppend | kernel/hilevel.c:685-853 | A run is one event after the other. |
| KernelCalls.RunGood | kernel/hilevel.c:685-853 | The same for every run of ticks and safe calls; counts are exact if nothing is killed. |
| KernelCalls.AwayKeepsRegisters | kernel/hilevel.c:143-153 | A process that gets the processor back, after any run, finds the registers it left with. |
| KernelCalls.RunLasting | kernel/hilevel.c:317-354 | Over any run, a slot that a failed open has used up stays used up, and a pipe's end is never freed. |
| CallMeanings.NextMeans | kernel/hilevel.c:155-175 | A hand-over goes to the first process behind the current one that can run: that one is executing with the registers it left, the current one has the status given and its registers saved, nothing else changes; without another such process nothing but the run time does. |
| CallMeanings.YieldMeans | kernel/hilevel.c:700-705 | YIELD is such a hand-over, and leaves the caller ready to run. |
| CallMeanings.ForkMeans | kernel/hilevel.c:453-497 | FORK returns -1 exactly if all 32 numbers are taken. Otherwise the least free one goes to the child: on the new stack, with the stack pointer moved by as much as the stack, result 0, and all else like its parent; the parent gets the number. Without memory the result is -2, and a copy of the caller's entry stays. Nobody else changes. |
| CallMeanings.ExecMeans | kernel/hilevel.c:499-504 | EXEC and EXECX start at the address in the first register, in user mode, at the top of the caller's stack; EXECX passes its second register on; nothing else changes. |
| CallMeanings.NiceMeans | kernel/hilevel.c:737-743 | NICE sets exactly one base priority, unless the number or the priority is out of range. |
| CallMeanings.KillMeans | kernel/hilevel.c:506-516 | KILL takes one process out of the live ones and changes nothing else. |
| CallMeanings.CloseFromMeans | kernel/hilevel.c:341-368 | Closing many descriptors takes from each entry's count the number of them that name it, and frees a file's entry exactly if none is left. |
| CallMeanings.ExitMeans | kernel/hilevel.c:433-449 | After EXIT the caller is out of the table with all its descriptors closed, and the nearest process that can run goes on. |
| CallMeanings.PostMeans | kernel/hilevel.c:526-564 | SEM_POST makes the first process behind the caller that waits for no more than is posted ready, and adds the rest to the semaphore; if there is none it adds all, modulo 2^32; nothing else changes. |
| CallMeanings.InitMeans | kernel/hilevel.c:744-759 | SEM_INIT posts what is missing to the value asked for, and answers whether that is below 32. |
| CallMeanings.WaitMeans | kernel/hilevel.c:570-602 | SEM_WAIT takes the units if they are there; otherwise the caller is noted as waiting for exactly them, and hands over. |
| CallMeanings.ModeMeans | kernel/hilevel.c:119-125 | A file may be read exactly if the lowest bit of the flags it was opened with is set, and written exactly if the next one is. |
| CallMeanings.TransferMeans | kernel/hilevel.c:370-416 | WRITE and READ return -1 for a closed descriptor and 0 if the mode does not allow them; else the serial line takes all and gives nothing, and a pipe or a file gives its answer, by which a file's cursor goes on; nothing else changes. |
| CallMeanings.OpenCallMeans | kernel/hilevel.c:775-789 | OPEN takes the step `OpenMeans` is about and returns the descriptor, or -1. |
| CallMeanings.CloseMeans | kernel/hilevel.c:341-368 | CLOSE says whether the descriptor was open; that one is then closed, its entry counts one less, and a file's entry goes exactly with the last. |
| CallMeanings.SwapMeans | kernel/hilevel.c:794-805 | FD_SWAP exchanges two descriptors and leaves the others; out of range it answers 0 and changes nothing. |
| CallMeanings.SwapTwice | kernel/hilevel.c:794-805 | Two swaps undo each other. |
| CallMeanings.PipeRoomMeans | kernel/hilevel.c:252-275 | There is room for a pipe exactly if two descriptors, two slots and a pipe are free. |
| CallMeanings.PipeCallMeans | kernel/hilevel.c:252-308 | PIPE enters both ends exactly if there is that room and memory for three allocations; with memory for one only the least unused pipe is taken. |
| CallMeanings.AnswerMeans | kernel/hilevel.c:816-852 | The calls the file system answers return its answer and change nothing else; unknown calls change nothing at all. |
| KernelHandlers.Kernel.constructor | kernel/hilevel.c:646-683 | Booting establishes the invariant, with process 0 running the first program at the top of its stack with priority 5, its first three descriptors on the serial line, the first for reading and the others for writing, and everything else unused. |
| KernelHandlers.Kernel.ScanTable | kernel/hilevel.c:159-165 | The scanning loop computes the next process. |
| KernelHandlers.Kernel.Next | kernel/hilevel.c:155-175 | next takes the hand-over step. |
| KernelHandlers.Kernel.Schedule | kernel/hilevel.c:206-211 | schedule takes the weighted round-robin step. |
| KernelHandlers.Kernel.AgeTable | kernel/hilevel.c:182-190 | The ageing loop ages the waiting processes and finds the winner. |
| KernelHandlers.Kernel.ScheduleAges | kernel/hilevel.c:182-204 | schedule takes the ageing step. |
| KernelHandlers.Kernel.NewPcbEntry | kernel/hilevel.c:214-221 | The first free entry is found and allocated. |
| KernelHandlers.Kernel.DoFork | kernel/hilevel.c:453-497 | do_fork takes the fork step, descriptor counts and the want of memory included. |
| KernelHandlers.Kernel.DoClose | kernel/hilevel.c:341-368 | do_close takes the close step. |
| KernelHandlers.Kernel.DoExit | kernel/hilevel.c:433-449 | do_exit closes every descriptor and leaves the table; the machine halts exactly if the table is empty. |
| KernelHandlers.Kernel.DoKill | kernel/hilevel.c:506-516 | do_kill takes the kill step, and halts exactly if the process given is the only one. |
| KernelHandlers.Kernel.FindWaiter | kernel/hilevel.c:535-541 | The scan finds the first process behind the current one that waits for no more than is posted. |
| KernelHandlers.Kernel.DoSemPost | kernel/hilevel.c:526-564 | do_sem_post takes the post step. |
| KernelHandlers.Kernel.DoSemWait | kernel/hilevel.c:585-601 | do_sem_wait takes the units or makes the caller wait. |
| KernelHandlers.Kernel.SvcSemInit | kernel/hilevel.c:744-759 | SEM_INIT takes its step, by way of a post; what that step answers is said by `InitGuard`, and what it sets by `InitSets`. |
| KernelHandlers.Kernel.DoOpen | kernel/hilevel.c:311-339 | do_open fills the first free slot, or leaks it if the file cannot be had. |
| KernelHandlers.Kernel.DoPipe | kernel/hilevel.c:252-308 | do_pipe takes the step of PIPE, and reports success exactly if there was room and memory. |
| KernelHandlers.Kernel.ReadLine | kernel/hilevel.c:399-408 | The reading loop of the serial line returns 0 whatever it is asked for and whatever comes, since the newline it assigns is not 0; the first place of the buffer is set to 0, the rest is as before. |
| KernelHandlers.Kernel.DoTransfer | kernel/hilevel.c:370-416 | do_write and do_read, on any entry a descriptor names: the result and the move of the cursor. |
| KernelHandlers.Kernel.SvcOpen | kernel/hilevel.c:775-789 | OPEN takes its step. |
| KernelHandlers.Kernel.SvcFdSwap | kernel/hilevel.c:794-805 | FD_SWAP takes its step. |
| KernelHandlers.Kernel.Svc | kernel/hilevel.c:698-853 | The dispatcher takes the step of the call; afterwards the kernel is valid exactly if the call was safe, and the machine halts exactly if the caller is the only process and exits or kills itself. |
| Descriptors.ShareCounts | kernel/hilevel.c:493-496 | The counting loop of a fork adds to each entry the number of descriptors that name it. |
| DescriptorCounts.CloseKeeps | kernel/hilevel.c:341-368 | A close keeps the counts right and frees an entry only if no live descriptor names it. |
| DescriptorCounts.OpenMeans | kernel/hilevel.c:775-789 | OPEN succeeds exactly if flags are given, the file is to be had, both tables have room, and memory for two allocations is there; it takes the least free descriptor and a free slot. Otherwise no descriptor changes, and a slot is lost exactly if flags, room and memory for the entry are there, and the file or the memory for its name is not. |
| DescriptorCounts.OpenCounts | kernel/hilevel.c:311-339 | An open, failed or not, keeps the counts right. |
| DescriptorCounts.PipeMeans | kernel/hilevel.c:252-308 | PIPE makes a pipe exactly if two descriptors, a pipe, two slots and memory are to be had; its ends are the least free ones and name each other; a pipe without memory for its ends is used up. |
| DescriptorCounts.PipeCounts | kernel/hilevel.c:252-308 | A pipe, made or not, keeps the counts right. |
| DescriptorCounts.TransferCounts | kernel/hilevel.c:370-416 | So do reading and writing. |
| DescriptorCounts.ForkCounts | kernel/hilevel.c:493-496 | So does a fork. |
| DescriptorCounts.SwapCounts | kernel/hilevel.c:794-805 | So does a swap. |
| DescriptorCounts.LeaveCounts | kernel/hilevel.c:439-445 | So does an exit. |
| DescriptorCounts.KillCounts | kernel/hilevel.c:506-516 | After a kill counts are at least the number of live references. |
| RoundRobin.NextInRound | kernel/hilevel.c:159-165 | The next process is the next competing slot of the round, or the round starts again. |
| RoundRobin.TickElapsed | kernel/hilevel.c:206-211 | A tick moves the round on by exactly one. |
| RoundRobin.Schedule | kernel/hilevel.c:206-211 | Under ticks alone, the process that runs after any number of ticks is the one whose stretch of the round, max(1, priority) long, that number falls into. |
| RoundRobin.DispatchedEveryRound | kernel/hilevel.c:206-211 | A process is dispatched again exactly after every round, the sum of all turns. |
| RoundRobin.NextCloser | kernel/hilevel.c:155-175 | Every hand-over brings the processor nearer to a process that can run. |
| RoundRobin.WaitBounded | kernel/hilevel.c:155-211 | Whatever calls are mixed in, a process that stays runnable sees fewer ticks pass than the sum of (priority cap + 1) over the slots before it. |
| Ageing.ScanWinner | kernel/hilevel.c:185-190 | The scan's winner is beaten by nobody it considered. |
| Ageing.AgeTickKeeps | kernel/hilevel.c:182-204 | A tick keeps the competitors; a waiting one is dispatched or grows older. |
| Ageing.RivalsShrink | kernel/hilevel.c:185-195 | Once its aged priority has reached the highest base priority, each tick dispatches a process or rids it of a rival for good. |
| Ageing.BoundedWaiting | kernel/hilevel.c:177-204 | With N competitors of base priority at most M, a process of base b and age a is dispatched within (M - b - a) + N - 1 ticks. |
| Ageing.BoundedByBase | kernel/hilevel.c:177-204 | In particular within (M - b) + N ticks. |
| Semaphores.StepConserves | kernel/hilevel.c:526-602 | Every event changes a semaphore by what it posts less what it grants, hand-offs included, modulo 2^32. |
| Semaphores.UnitsConserved | kernel/hilevel.c:526-602 | Over any run without wrap-around a semaphore is its start plus all posts less all grants. |
| Semaphores.StepNoLost | kernel/hilevel.c:526-602 | No event of unit operations leaves a process waiting for a semaphore that has a unit. |
| Semaphores.NoWakeupLost | kernel/hilevel.c:526-602 | The same in every state of a run. |
| Semaphores.InitSets | kernel/hilevel.c:744-759 | SEM_INIT sets the value exactly if it is the present one, or no other process waits for as many units as are posted or fewer, or the first one that does waits for none. |
| Semaphores.InitGuard | kernel/hilevel.c:750-757 | For every semaphore number and value, SEM_INIT answers 1 exactly if the value is below 32; with a semaphore of 32 and more it then answers 1 and changes nothing else. |
| Philosophers.LowerFirst | user/philosophers.c:34-36 | Each philosopher takes its lower-numbered fork first. |
| Philosophers.MutualExclusion | user/philosophers.c:37-53 | Neighbours never eat at the same time. |
| Philosophers.NobodyHolds | user/philosophers.c:11-16 | If all were blocked, no fork from the highest down could be held. |
| Philosophers.SomebodyUnblocked | user/philosophers.c:11-16 | Some philosopher is never blocked. |
| Philosophers.GrantedOk | user/philosophers.c:40-44 | A granted wait keeps each fork's value plus holders at one. |
| Philosophers.BlocksOk | user/philosophers.c:40-44 | So does a wait that blocks. |
| Philosophers.PutDownOk | user/philosophers.c:51-52 | So does a post nobody waits for. |
| Philosophers.HandedOk | user/philosophers.c:51-52 | So does a post that is handed to a neighbour. |
| Philosophers.OtherOk | user/philosophers.c:60-88 | So does any other call, by anyone. |
| Philosophers.SpawnOk | user/philosophers.c:63-70 | So does forking the next philosopher. |
| Philosophers.MoveIsStep | user/philosophers.c:33-70 | Every move of the interleavings is a step of the kernel: a tick, any call, a philosopher waiting for its lower and then its higher fork and putting them down in that order, or the birth of the next one. |
| Philosophers.MovesAllowed | user/philosophers.c:33-70 | The clock may tick at any time, and other processes make any calls that kill nobody and leave the forks alone. |
| Philosophers.DinnerIsSafe | user/philosophers.c:33-54 | In every state any interleaving reaches: exclusion, one holder or unit per fork, and somebody unblocked, for any number of philosophers the semaphore table allows. |
| Philosophers.HeldByOther | user/philosophers.c:31-54 | In every state the fork a blocked philosopher waits for is in the hand of its other neighbour. |
| Philosophers.NotOvertaken | kernel/hilevel.c:526-551 | Over any interleaving, that neighbour is the only one to hold the fork until the waiting philosopher is handed it: nobody overtakes. |
| Philosophers.DinnerFromBoot | user/philosophers.c:55-89 | From boot through the laying of the forks and any interleaving after it: exclusion, one holder or unit per fork, and somebody unblocked. |
| Philosophers.LaidTable | user/philosophers.c:56-60 | Once the spawner has initialised forks 0 to n - 1 in turn, whatever else ran in between, the table is in order. |
| Philosophers.LaidNone | kernel/hilevel.c:673-683 | A kernel without units and waiters, as after boot, is where the laying of the forks can start. |
| Philosophers.InitLays | user/philosophers.c:59 | SEM_INIT(f, 1) gives an unused fork its one unit. |
| PipeRing.RunIsFifo | kernel/pipe.c:22-41 | Over any interleaving, what has been read is a prefix of what has been accepted, and the pipe holds exactly the rest. |
| PipeRing.RunAppend | kernel/pipe.c:22-41 | A run is one call after the other. |
| PipeRing.StepIsMaximal | kernel/pipe.c:22-41 | A call moves fewer characters than asked for only if it empties or fills the pipe. |
| PipeRing.Pipe.constructor | kernel/pipe.c:10-16 | A reset pipe is empty. |
| PipeRing.Pipe.CanRead | kernel/pipe.c:18-20 | True exactly if the pipe holds something. |
| PipeRing.Pipe.Read | kernel/pipe.c:22-31 | Returns and removes the longest possible front of the queue. |
| PipeRing.Pipe.Write | kernel/pipe.c:33-41 | Appends the longest possible front of the data. |
| DiskLink.HexRoundTrip | device/PL011.c:15-38 | Either end's two digits for a byte read back as that byte. |
| DiskLink.UnhexlifyText | device/disk.py:31-32 | Decoding the driver's hex text gives the bytes back. |
| DiskLink.AddressSigned | device/disk.py:31 | The address sent as unsigned is read as signed: negative from 2^31 on. |
| DiskLink.WrHandled | device/disk.py:30-51 | What the disk makes of a write request, for every address and length: acknowledged, refused, or the end of the disk process. |
| DiskLink.RdHandled | device/disk.py:56-73 | The same for a read request. |
| DiskLink.ConfHandled | device/disk.py:19-23 | A request for the disk's size is answered with its number of blocks and their length, or ends the disk process if one of them has 2^31 or more. |
| DiskLink.OtherHandled | device/disk.py:126-133 | A command the disk does not know fails and changes nothing. |
| DiskLink.WireExample | device/disk.c:10-21 | The lines of three requests and answers, character by character. |
| DiskLink.Link.AddrPuth | device/disk.c:10-15 | Sends the hex text of the address, least significant byte first. |
| DiskLink.Link.DataPuth | device/disk.c:17-21 | Sends the hex text of the data. |
| DiskLink.Link.DataGeth | device/disk.c:23-27 | Reads exactly the data out of the acknowledgement. |
| DiskLink.Link.Serve | device/disk.py:116-139 | One turn of the request loop answers one line with one line. |
| DiskLink.Link.DiskWr | device/disk.c:79-99 | After at most three attempts: success exactly if length and address are right, and then exactly that block has changed; a refusal changes nothing; both directions are left empty. |
| DiskLink.Link.DiskRd | device/disk.c:101-121 | The same for reading, for every number of bytes: that many of the block's bytes, or nothing changed; asked for less than a block it leaves the rest of the answer, less one character, unread, and asked for more it never returns. |
| DiskLink.Link.WriteThenRead | device/disk.c:79-121 | What is written at an address is what is read there, and nowhere else. |
| Decimal.DigitsAccumulate | user/libc.c:20-23 | Reading the digits of t back, with 32-bit wrap-around, gives t or -t. |
| Decimal.ParseMeans | user/libc.c:10-26 | Whatever the characters, atoi gives the decimal number they stand for, negated behind a '-', and wrapped around to 32 bits. |
| Decimal.RoundTrip | user/libc.c:10-53 | atoi of what itoa writes is the number, for every 32-bit integer. |
| Decimal.WellFormedIff | user/libc.c:28-53 | The text is a decimal numeral without needless zeros exactly if the number is not the smallest integer. |
| Decimal.Atoi | user/libc.c:10-26 | The loop computes the value of the text up to its terminator. |
| Decimal.Itoa | user/libc.c:28-53 | The buffer holds the text and its terminator, and nothing else changes. |
| Decimal.CountDigits | user/libc.c:38-40 | The counting pass counts the digits. |
| Decimal.FillDigits | user/libc.c:44-46 | The filling pass writes the digits, backwards, and ends just before the first character. |

## Left out

- Fs2Volume.Volume.Write: of a write with a cursor behind the end of the file, which the code documents as an error of its caller, the bytes behind the old ones are not said. Of one that is given a region of no blocks, the bytes behind those `Reach` counts are not said, nor how far it comes after them. Of no write is said what the last block holds behind the end of the file.
- Fs2Volume.Volume.Format: the general purpose cache of the structure handed in, if it names a block, agrees with the disk, and the first two entries of a directory cache on block 0 name no inodes in use but the root. What calls do after a format with the cached inode index 0 is not said: there is no inode table then.
- Fs2Usage.RunOps: nothing is said of calls after one that has left a directory listing an inode that is not in use; `StrayEntry` and `BytesAsEntry` show what is lost then. The exact condition for that call (`OpInUse`) is stated for whole volumes.
- Fs2Usage.RemoveThenFind: an entry the cache shows for the right inode but under another name is not excluded, so that the multiset of entries is stated if the cache shows the last entry itself.
- Fs2Volume.Volume.AddDirEntry: the C code leaves two loop variables without a value; both are taken to start at 0. What a directory's block holds behind its last entry is not said. The same goes for the counters of `PipeRing.Pipe.Read` and `PipeRing.Pipe.Write`.
- Fs2Laws.RemoveKeepsPaths: names that several entries begin with may resolve differently after a removal, because entries change places.
- Blocks hold typed structures, and reading one as another type decodes its bytes. The `unused` bytes of the header read as zeroes, and numbers of 2^32 and more are cut to 32 bits by the encoding only, not in memory.
- A disk request is refused exactly if the address is outside the disk; faults of the medium are not modelled, and `blk_0` is 0.
- `fs2_ls`, `fs2_isftype`, `fs2_block_dump` and the outcome texts: easy members that only read. Permissions and chmod: the checks never fire, and chmod is empty; of the permission byte of a new inode nothing is said.
- Reuse of free regions: the loop at `kernel/fs2.c:50-56` has no effect. Blocks and inodes are never reclaimed.
- Sizes beyond 32 bits: block numbers stay below the volume's size, which is below 2^32 - 1; file sizes and cursors are not wrapped at 2^31 or 2^32.
- KernelHandlers.Kernel.SvcSemWait: waiting for a semaphore number of 32 or more is not covered; the code ends the process and then reads behind the array.
- KernelHandlers.Kernel.constructor: the open counts of the serial line's entries, which the C code leaves unset, are taken to be 0.
- KernelHandlers.Kernel.DoFork: whether `malloc` has a stack for the child, and where, is a parameter, as is the number of allocations that succeed in OPEN and PIPE. Stack contents are not modelled, and the small allocation of SEM_WAIT is taken to succeed.
- KernelHandlers.Kernel.DoClose: the final close of a pipe's or the serial line's descriptor leaves the table as it is; the memory that the C code frees for the pipe's other end is taken to keep its contents.
- KernelHandlers.Kernel.DoTransfer: the reading loop of the serial line runs on a buffer of its own, since user memory is not modelled; the writing loop only sends characters.
- KernelCalls.CallGood: what a pipe or the file system answers to READ, WRITE and the file system's calls is a parameter; the kernel's state holds which pipes are in use, and `PipeRing` and `Fs2Volume` what they do. User memory and the working directory are not modelled.
- Ageing.BoundedWaiting: assumes, as the code's comment does, that the running process has age 0, which every dispatch by the scheduler establishes.
- Interrupt and timer registers, the shell and the other user programs.
- `disk_get_block_num` and `disk_get_block_len`: the same exchange as a read.
- `kernel/fs.c` and `kernel/vfs._c`: abandoned and unfinished in the repository.
