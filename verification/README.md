# Verified models of the MCSOS kernel

Dafny models of the stateful core of the MCSOS teaching kernel, and proofs of what that core
promises over whole runs, crashes, failures and interleavings:

| part | specification | proofs | imperative form |
|---|---|---|---|
| write-ahead journal and the MCSFS1J file system on it | `Journal`, `M16Fs` | `JournalCrash`, `JournalReplies`, `JournalDamage`, `M16Inv`, `M16Crash`, `M16Runs`, `M16Replies` | `M16Device` |
| four-level page tables | `Vmm` | `VmmRefine`, `VmmRuns`, `VmmReplies`, `VmmPmm`, `VmmSystem` | `VmmSpace` |
| physical frame allocator | `Pmm` | `PmmProps`, `PmmReplies` | `PmmDevice` |
| kernel heap | `Heap` | `HeapProps`, `HeapMem`, `HeapReplies` | `HeapList` |
| MCSFS1 file system | `Mcsfs1` | `McsInv`, `McsOps`, `McsWrite`, `McsRuns`, `McsLong`, `McsLoss`, `McsReplies` | `McsDevice` |
| write-back block cache and RAM disk | `Bcache` | `BcacheProps`, `BcacheRuns`, `BcacheReplies` | `RamBlk`, `BcacheDevice` |
| lock-order checker, spinlocks, mutex | `Lockdep` | `Spinlocks`, `SpinProgress`, `Mutex` | `Lockdep` |
| round-robin scheduler | `Scheduler` | `Scheduler` | `ThreadQueue` |

Each part has the same plan. Pure functions say what every operation does to a state made of
bytes, blocks, tables or lists. Lemmas prove what those functions keep, refine and undo, for
all inputs and all runs; the `Replies` modules say in raw bytes, bits and numbers what each call
accepts, answers and writes. Classes hold the code's own loops, in-place updates and pointers, and
each method is proved equal to its function, so the lemmas hold of the code. `Bytes` has the
shared material: 512-byte blocks, little-endian fields, bitmaps and C strings; `Words` the word
sizes.

## Main results

* **Crash safety.** From any consistent disk, a file write cut after any number of block writes
  (in the mount or either transaction) leaves a consistent disk; after the next mount every other
  file is unchanged and the new name is absent or complete (`M16Crash.WriteFileCrashSafe`), over
  every history of writes, mounts and power losses (`M16Runs`). Underneath, commit is atomic and
  takes effect exactly when its header is written (`JournalCrash.CommitAtomic`), and recovery may
  itself be interrupted any number of times (`JournalCrash.RecoveryIdempotent`).
* **Damage shows.** Changing any one byte of a committed header or of a logged payload changes its
  checksum, and recovery stops there with CORRUPT (`JournalDamage`).
* **Page tables are a map.** Over every run of map and unmap the radix tree answers as a flat map
  from canonical pages to (address, flags), keeps its tree shape, and never leaks a half-made
  mapping; the frame allocator's contract discharges the freshness it needs, from boot on
  (`VmmSystem`).
* **The heap tiles and coalesces.** Every run keeps the exact tiling with no two free neighbours;
  freeing everything in any order gives back the single initial block.
* **MCSFS1 is a map of names to bytes.** Every run after a format behaves as that map, with the
  exact reply of each call, including when space runs out.
* **The cache is invisible.** Reads return the last successful write or the device's bytes across
  evictions and failed transfers; a successful flush leaves exactly that on the devices.
* **The frame allocator's hint is a pure optimisation,** and the boot bitmap has a closed meaning
  independent of the order of regions.
* **Locks.** No circular wait in any reachable state for any number of threads and locks, and from
  each one every waiting thread can still get its lock (`SpinProgress.NeverStuck`); the mutex
  excludes, every call of every interleaving returns the right code, and within three steps.
* **Round robin.** The thread at position k runs on exactly the (k+1)-th later yield.

## What the code does not promise

* Recovery of an arbitrary journal is not idempotent: a log whose record overwrites the journal
  header loses records when it is interrupted (`JournalCrash.UnsoundLogNotIdempotent`). With all
  targets outside LBAs 1 to 17 it is. Every state the file system makes, after a format and any
  history with power losses, is of that kind (`M16Runs.FormattedHistory`).
* The target block number in a journal descriptor has no checksum: a damaged one that still lies on
  the device is replayed, with OK, to the wrong block (`JournalDamage.DescriptorDamage`).
* An MCSFS1 name of 27 characters is stored without a terminator and is found again exactly when
  the next directory entry is dead (`McsLong.CreatedLongFoundIff`); creating one more file can make
  it unreadable (`McsLong.LongNameLost`). The map refinement is for names of at most 26 characters.
* An MCSFS1 write that runs out of space has by then marked every free data block, and no file
  gets them (`McsLoss.FailedLost`, `McsLoss.LossHappens`). Over a run from a format, blocks are
  lost if and only if some write needed more blocks than were free while some were, which its
  caller can compute; no other call loses one, and none ever comes back (`McsLoss.FormattedLoss`).
* Enqueue does not refuse a thread that is running or queued, and then no queue fits the pointers
  and the counter any more (`ThreadQueue.ReadyQueue.EnqueueAny`).
* The cache accepts a write to a block number beyond the device; on devices that do not fail,
  flush_all succeeds if and only if no such block is waiting (`BcacheRuns.FlushAllOkIff`).

* The boot map has its meaning if and only if no region makes the 64-bit alignment wrap or overflow
  on frames that exist (`PmmProps.PlainIff`); a few usable bytes in the last page of the address
  space free every frame but 0 (`PmmProps.TopPageFreesAll`). `PmmProps.InitFrees` covers every list.

Machine integers are unbounded naturals with the wrap-around written out where it can happen.
Bitwise operations are arithmetic on single bits. Device callbacks, power loss, the frame
callback and thread scheduling are parameters: a write budget, a list of coming answers or
faults, a sequence of actions.

## Model

| member | source | states |
|---|---|---|
| `Bytes.DecodeEncode` | kernel/fs/mcsfs1j/m16_mcsfs_journal.c:113-119 | a value that fits its little-endian field reads back as stored |
| `Bytes.MemberAt` | fs/mcsfs1/mcsfs1.c:13-42 | every member of a struct written into a block reads back as stored |
| `Bytes.MembersOther` | fs/mcsfs1/mcsfs1.c:13-42 | bytes outside the members written are untouched |
| `Bytes.BitSetAt` | fs/mcsfs1/mcsfs1.c:129-139 | setting a bit sets that bit and no other |
| `Bytes.BitClearAt` | fs/mcsfs1/mcsfs1.c:133-139 | clearing a bit clears that bit and no other |
| `Journal.RunWritesIsPrefix` | kernel/fs/mcsfs1j/m16_mcsfs_journal.c:163-176 | for every fail_after and every list of block writes the disk has exactly a prefix of it applied: all of it with OK, up to the budget with EIO, up to the first block off the device with EINVAL |
| `Journal.ApplyAbsorbsPrefix` | kernel/fs/mcsfs1j/m16_mcsfs_journal.c:311-333 | replaying a list over a disk that already has a prefix of it gives the same disk |
| `Journal.CommitHeaderReadsBack` | kernel/fs/mcsfs1j/m16_mcsfs_journal.c:229-235 | recovery accepts a commit header, with its own checksum field zeroed for the sum, and reads its record count |
| `Journal.DescReadsBack` | kernel/fs/mcsfs1j/m16_mcsfs_journal.c:251-267 | a logged descriptor and payload validate and give back the target |
| `JournalCrash.RecoverIsPlan` | kernel/fs/mcsfs1j/m16_mcsfs_journal.c:292-335 | the replay loop, which re-reads the disk it is changing, performs the list of writes fixed at its start and returns the planned code |
| `JournalCrash.RecoverCut` | kernel/fs/mcsfs1j/m16_mcsfs_journal.c:292-335 | recovery cut after any number of writes leaves a disk that recovers to the same home blocks with the same code; OK means the header is empty |
| `JournalCrash.RecoveryIdempotent` | kernel/fs/mcsfs1j/m16_mcsfs_journal.c:292-335 | any number of interrupted recoveries and then a full one equal one full one, outside the journal |
| `JournalCrash.UnsoundLogNotIdempotent` | kernel/fs/mcsfs1j/m16_mcsfs_journal.c:311-333 | a log that overwrites the header is not recovered idempotently |
| `JournalCrash.CommittedPlan` | kernel/fs/mcsfs1j/m16_mcsfs_journal.c:292-335 | records and a header written by commit are exactly what recovery replays |
| `JournalCrash.CommitBefore` | kernel/fs/mcsfs1j/m16_mcsfs_journal.c:247-267 | before its header is on disk a commit has changed no home block and recovery has nothing to do |
| `JournalCrash.CommitAfter` | kernel/fs/mcsfs1j/m16_mcsfs_journal.c:268-290 | from its header on, a commit cut anywhere recovers to all records applied in order |
| `JournalCrash.CommitAtomic` | kernel/fs/mcsfs1j/m16_mcsfs_journal.c:237-335 | from an empty header, at most 8 records outside LBAs 1..17 and any fail_after: recovery returns OK and the home blocks are the old ones, or the old ones with all records applied, the latter iff the commit header was written; OK iff the budget covers all writes |
| `M16Fs.FindSlot` | kernel/fs/mcsfs1j/m16_mcsfs_journal.c:438-446 | the first matching entry, none before it |
| `M16Fs.FindFreeSlot` | kernel/fs/mcsfs1j/m16_mcsfs_journal.c:448-456 | the first unused entry, none before it |
| `M16Inv.FsOkPassesFsck` | kernel/fs/mcsfs1j/m16_mcsfs_journal.c:599-653 | a consistent disk passes m16_fsck |
| `M16Inv.FindIs` | kernel/fs/mcsfs1j/m16_mcsfs_journal.c:438-446 | lookup by the bounded string compare finds the one live entry with the name |
| `M16Inv.ReadsAlike` | kernel/fs/mcsfs1j/m16_mcsfs_journal.c:558-597 | disks that agree on their entries, with their blocks, read alike for every name and capacity |
| `M16Inv.SetInodeAt` | kernel/fs/mcsfs1j/m16_mcsfs_journal.c:195-217 | setting an inode sets its fields and leaves the other inodes alone |
| `M16Inv.SetSlotAt` | kernel/fs/mcsfs1j/m16_mcsfs_journal.c:519-522 | linking an entry sets it and leaves the other entries alone |
| `M16Crash.ReserveKeeps` | kernel/fs/mcsfs1j/m16_mcsfs_journal.c:513-541 | the first transaction keeps the file system consistent and every entry as it was |
| `M16Crash.LinkKeeps` | kernel/fs/mcsfs1j/m16_mcsfs_journal.c:519-552 | the second transaction keeps it consistent and changes one entry only |
| `M16Crash.LinkReads` | kernel/fs/mcsfs1j/m16_mcsfs_journal.c:558-597 | after the second transaction the new name reads back exactly the given bytes |
| `M16Crash.AfterReserve` | kernel/fs/mcsfs1j/m16_mcsfs_journal.c:513-541 | with only the first transaction done, the file system is consistent and every name reads as before |
| `M16Crash.ReserveMarks` | kernel/fs/mcsfs1j/m16_mcsfs_journal.c:513-541 | the residue of the first transaction is an inode and a block marked used that no entry names |
| `M16Crash.AfterWritten` | kernel/fs/mcsfs1j/m16_mcsfs_journal.c:458-552 | with both done, the new name reads the data and every other name as before |
| `M16Crash.WriteMountedCut` | kernel/fs/mcsfs1j/m16_mcsfs_journal.c:470-552 | two transactions cut anywhere recover to one of three states: as before, reserved, written |
| `M16Crash.WriteMountedExactly` | kernel/fs/mcsfs1j/m16_mcsfs_journal.c:513-552 | which of them, by the write budget alone: as before below 14 writes, reserved below 27, written from there on; and the code |
| `M16Crash.WriteFileCrashSafe` | kernel/fs/mcsfs1j/m16_mcsfs_journal.c:458-552 | file-level crash safety for every write budget, mount included; OK only if the name was absent and the file is complete |
| `M16Crash.WriteFileReplies` | kernel/fs/mcsfs1j/m16_mcsfs_journal.c:458-552 | with faults off the code is decided by name, size, presence and room, so a valid absent name succeeds iff a free inode, block and entry exist; a failing device adds EIO only |
| `M16Crash.RoomIs` | kernel/fs/mcsfs1j/m16_mcsfs_journal.c:420-456 | the three searches find something iff there is a free inode, a free data block and an unused entry |
| `M16Runs.FormatOk` | kernel/fs/mcsfs1j/m16_mcsfs_journal.c:337-397 | a completed format is consistent and every name is absent |
| `M16Runs.PerformSafe` | kernel/fs/mcsfs1j/m16_mcsfs_journal.c:399-552 | one write or mount, cut anywhere, changes at most its own name, from absent to complete |
| `M16Runs.RunConsistent` | kernel/fs/mcsfs1j/m16_mcsfs_journal.c:599-653 | every state of every history mounts, and fsck returns OK |
| `M16Runs.FilesPersist` | kernel/fs/mcsfs1j/m16_mcsfs_journal.c:558-597 | a file that reads back once reads back unchanged for the rest of every history |
| `M16Runs.AcknowledgedWritesSurvive` | kernel/fs/mcsfs1j/m16_mcsfs_journal.c:458-552 | a write that returned OK reads back whatever crashes follow |
| `M16Runs.NothingFromNowhere` | kernel/fs/mcsfs1j/m16_mcsfs_journal.c:558-597 | no history invents or tears data |
| `M16Runs.FormattedHistory` | kernel/fs/mcsfs1j/m16_mcsfs_journal.c:292-653 | from a completed format, after any history: mounts, fsck OK, interrupted recoveries harmless, every name absent or whole, acknowledged writes read back |
| `M16Runs.ReadGivesContents` | kernel/fs/mcsfs1j/m16_mcsfs_journal.c:558-597 | on a consistent disk read_file delivers the contents and its copy never leaves the block |
| `JournalReplies.RecoverAnswers` | kernel/fs/mcsfs1j/m16_mcsfs_journal.c:292-335 | with faults off, from the bytes of blocks 1 to 17: a blank header is OK, one that fails any of its five tests CORRUPT, both with no change; else exactly the records before the first bad one are applied, and the answer is OK, with the header cleared, iff there is no bad one |
| `JournalReplies.OkMeansIntact` | kernel/fs/mcsfs1j/m16_mcsfs_journal.c:301-334 | OK on a header that is not blank, on a device that may fail anywhere, means a sealed header and, for every record, the descriptor magic, a target below 128 and the right payload checksum |
| `JournalReplies.DamageIsNoticed` | kernel/fs/mcsfs1j/m16_mcsfs_journal.c:319-321 | a record whose descriptor magic is gone stops recovery with CORRUPT, the records before it applied |
| `JournalReplies.PlanSays` | kernel/fs/mcsfs1j/m16_mcsfs_journal.c:292-335 | the plan of a recovery in terms of raw fields |
| `JournalReplies.CommitRefusesNine` | kernel/fs/mcsfs1j/m16_mcsfs_journal.c:243-246 | more than eight records are refused with nothing written; up to eight, to blocks of the device, never are |
| `JournalReplies.HeaderSays` | kernel/fs/mcsfs1j/m16_mcsfs_journal.c:271-283 | every field of a commit header, the sequence number cut to 32 bits, zeros after them |
| `JournalReplies.DescriptorSays` | kernel/fs/mcsfs1j/m16_mcsfs_journal.c:250-262 | magic, target and payload checksum of a descriptor |
| `JournalDamage.KnownValues` | kernel/fs/mcsfs1j/m16_mcsfs_journal.c:141-149 | the checksum is 32-bit FNV-1a: its published values for no bytes and for the letter a |
| `JournalDamage.MixInjective` | kernel/fs/mcsfs1j/m16_mcsfs_journal.c:144-147 | each step of the checksum can be undone |
| `JournalDamage.OneByteShows` | kernel/fs/mcsfs1j/m16_mcsfs_journal.c:141-149 | changing one byte of anything changes its checksum |
| `JournalDamage.PayloadDamage` | kernel/fs/mcsfs1j/m16_mcsfs_journal.c:326-328 | a logged record with one damaged payload byte is refused |
| `JournalDamage.HeaderDamage` | kernel/fs/mcsfs1j/m16_mcsfs_journal.c:304-309 | a committed header with one damaged byte, anywhere in its block, is refused |
| `JournalDamage.HeaderDamageStops` | kernel/fs/mcsfs1j/m16_mcsfs_journal.c:292-309 | recovery then answers CORRUPT and changes nothing |
| `JournalDamage.PayloadDamageStops` | kernel/fs/mcsfs1j/m16_mcsfs_journal.c:311-333 | recovery then applies the records before it and answers CORRUPT |
| `JournalDamage.DescriptorDamage` | kernel/fs/mcsfs1j/m16_mcsfs_journal.c:319-328 | of the changes to one byte of a descriptor, exactly those outside its magic and checksum that leave the target on the device go unnoticed |
| `Journal.WritesCounted` | kernel/fs/mcsfs1j/m16_mcsfs_journal.c:163-176 | dev->writes counts the blocks written, modulo 2^64 |
| `M16Replies.FsckSays` | kernel/fs/mcsfs1j/m16_mcsfs_journal.c:599-655 | after the mount fsck is OK iff the root inode, the marks on blocks 0 to 24 and each used entry, with its inode, size and block, are sane, in raw fields and bits; else CORRUPT |
| `M16Replies.MountSays` | kernel/fs/mcsfs1j/m16_mcsfs_journal.c:399-418 | the answer of recovery, or CORRUPT unless five superblock members are right |
| `M16Replies.FormatSays` | kernel/fs/mcsfs1j/m16_mcsfs_journal.c:337-397 | a completed format: all thirteen superblock members, exactly bit 0 and bits 0 to 24, the root inode, zeros elsewhere |
| `M16Replies.WriteRefuses` | kernel/fs/mcsfs1j/m16_mcsfs_journal.c:458-473 | TOO_LONG and INVAL before the mount, with no change, and a failed mount passed on |
| `M16Replies.WrittenSays` | kernel/fs/mcsfs1j/m16_mcsfs_journal.c:474-552 | a completed write in bytes: the lowest free inode, block and entry are taken and filled in, the data padded with zeros, and no other bit, inode, entry or home block changes |
| `M16Replies.StopSays` | kernel/fs/mcsfs1j/m16_mcsfs_journal.c:540-551 | the second transaction's header carries the superblock's generation plus 2 and two records |
| `M16Replies.CutSays` | kernel/fs/mcsfs1j/m16_mcsfs_journal.c:517-541 | power lost just after the first header: it carries the generation plus 1 and six records |
| `M16Replies.ReadSays` | kernel/fs/mcsfs1j/m16_mcsfs_journal.c:558-597 | on any disk, through the first matching entry: CORRUPT, INVAL, the overrun, or the bytes |
| `M16Device.ComputeChecksum` | kernel/fs/mcsfs1j/m16_mcsfs_journal.c:141-149 | the loop computes 32-bit FNV-1a |
| `M16Device.HeaderChecksum` | kernel/fs/mcsfs1j/m16_mcsfs_journal.c:229-235 | the checksum of the header with its own field zeroed |
| `M16Device.StringsEqual` | kernel/fs/mcsfs1j/m16_mcsfs_journal.c:129-139 | the bounded compare of a 32-byte field with a C string |
| `M16Device.FindClear` | kernel/fs/mcsfs1j/m16_mcsfs_journal.c:420-436 | the first clear bit of a range, or its end |
| `M16Device.FindDirent` | kernel/fs/mcsfs1j/m16_mcsfs_journal.c:438-446 | the loop finds the first matching entry |
| `M16Device.FindFreeDirent` | kernel/fs/mcsfs1j/m16_mcsfs_journal.c:448-456 | the loop finds the first unused entry |
| `M16Device.Transaction.Add` | kernel/fs/mcsfs1j/m16_mcsfs_journal.c:219-227 | appends a record, or NOSPC and no change at eight |
| `M16Device.Transaction.StoreInodeTable` | kernel/fs/mcsfs1j/m16_mcsfs_journal.c:206-217 | four table blocks are added, or none |
| `M16Device.BlockDevice.constructor` | kernel/fs/mcsfs1j/m16_mcsfs_journal.c:178-185 | a zeroed device of 128 blocks with faults off |
| `M16Device.BlockDevice.WriteBlock` | kernel/fs/mcsfs1j/m16_mcsfs_journal.c:163-176 | one block in place, the write counter and the fault budget |
| `M16Device.BlockDevice.JournalClear` | kernel/fs/mcsfs1j/m16_mcsfs_journal.c:237-241 | zeroes the header |
| `M16Device.BlockDevice.JournalCommit` | kernel/fs/mcsfs1j/m16_mcsfs_journal.c:243-290 | the loops perform the specified write list, stopping where the device stops |
| `M16Device.BlockDevice.JournalRecover` | kernel/fs/mcsfs1j/m16_mcsfs_journal.c:292-335 | the validate-and-apply loop equals the specification on every disk, corrupt ones included |
| `M16Device.BlockDevice.Mount` | kernel/fs/mcsfs1j/m16_mcsfs_journal.c:399-418 | recovery and the superblock checks |
| `M16Device.BlockDevice.LoadInodeTable` | kernel/fs/mcsfs1j/m16_mcsfs_journal.c:195-204 | four blocks in order |
| `M16Device.BlockDevice.Format` | kernel/fs/mcsfs1j/m16_mcsfs_journal.c:337-397 | the format of the specification, for every write budget |
| `M16Device.BlockDevice.WriteFileEx` | kernel/fs/mcsfs1j/m16_mcsfs_journal.c:458-552 | equals the specification of the file write on every device state |
| `M16Device.BlockDevice.ReadFile` | kernel/fs/mcsfs1j/m16_mcsfs_journal.c:558-597 | equals the specification on every disk; a size beyond the block is reported as an overrun |
| `M16Device.BlockDevice.Fsck` | kernel/fs/mcsfs1j/m16_mcsfs_journal.c:599-653 | the loops decide exactly the specified consistency check |
| `Vmm.PageFromIndices` | src/vmm.c:19-22 | a canonical page address is rebuilt from its half bit and four indices |
| `Vmm.IndicesInjective` | src/vmm.c:13-22 | distinct canonical pages take distinct paths |
| `Vmm.LeafReadsBack` | src/vmm.c:146-149 | a leaf entry gives back the masked address and PRESENT with the allowed flags |
| `Vmm.LinkReadsBack` | src/vmm.c:60-75 | an intermediate entry is present, not huge, and gives back its frame masked to 52 bits |
| `VmmRefine.WalkFollowsTree` | src/vmm.c:154-220 | in a well-shaped space the walk follows the tree of tables and misses only with NOT_FOUND |
| `VmmRefine.LinkKeepsShape` | src/vmm.c:31-75 | linking a fresh zeroed table keeps the tree: distinct frames, one parent each, depth at most 4 |
| `VmmRefine.LinkKeepsLeaves` | src/vmm.c:31-75 | and changes no walk's outcome |
| `VmmRefine.LeafWriteIsUpdate` | src/vmm.c:146-149 | writing one page-table entry changes exactly the one path that ends there |
| `VmmRefine.NextTableReady` | src/vmm.c:31-75 | get_or_alloc_next_table, failing or not, changes no answer and takes at most one frame |
| `VmmRefine.DescendReady` | src/vmm.c:116-131 | three levels of it: at most three new tables, no answer changes, NOMEM midway included |
| `VmmRuns.MapRefines` | src/vmm.c:96-152 | map adds exactly one key with the masked address and allowed flags at an absent key; EXISTS iff present; no failure changes any answer |
| `VmmRuns.MapSucceeds` | src/vmm.c:96-152 | with three usable frames in stock mapping an absent page succeeds |
| `VmmRuns.UnmapRefines` | src/vmm.c:222-285 | unmap removes exactly one key, succeeding exactly on present ones |
| `VmmRuns.RunRefines` | src/vmm.c:96-285 | over every run the walk answers as the flat map, the shape holds and tables are only added |
| `VmmRuns.InitialReady` | src/vmm.c:77-94 | a zeroed root represents the empty map |
| `VmmRuns.LinkedOnce` | src/vmm.c:31-75 | every table but the root is linked from exactly one entry, the root from none |
| `VmmReplies.PageIff` | src/vmm.c:9-17 | canonical means not in 0x0000800000000000..0xFFFF7FFFFFFFFFFF |
| `VmmReplies.InvalIff` | src/vmm.c:96-285 | for aligned addresses and with usable frames, map, query and unmap answer INVAL iff the address is in that hole |
| `VmmReplies.QuerySays` | src/vmm.c:154-220 | query: INVAL iff misaligned or in the hole, else what the flat map has |
| `VmmReplies.UnmapSays` | src/vmm.c:222-285 | unmap: INVAL for the same addresses, OK for mapped ones, NOT_FOUND for the others |
| `VmmReplies.MapSays` | src/vmm.c:31-75 | map asks for exactly the missing tables; all granted, OK or EXISTS; at the first answer it cannot use NOMEM, or INVAL for a frame out of reach, which alone is given back |
| `VmmReplies.MappedBits` | src/vmm.c:138-149 | after a successful map, query gives address bits 12 to 51 as passed and exactly PRESENT and the flag bits 1, 2, 3, 4, 8 and 63 that were passed |
| `VmmReplies.MaskBits` | src/vmm.c:36-36 | the address mask is bits 12 to 51, the flags are the others |
| `VmmReplies.LinkBits` | src/vmm.c:67-70 | a link has bits 0 and 1 and the address bits of its frame |
| `VmmReplies.StoppedSays` | src/vmm.c:33-44 | in any memory, an entry on the way that is absent, huge or out of reach decides all three answers, with no change |
| `VmmReplies.ReachedSays` | src/vmm.c:132-149 | in any memory, the page-table entry decides all three answers, and only it is written |
| `VmmPmm.OfferIsFresh` | src/pmm.c:178-200 | frames from pmm_alloc_frame are new to the page tables |
| `VmmPmm.MapFromPmm` | src/vmm.c:96-152 | with pmm_alloc_frame as the callback and no freshness assumed, mapping keeps refinement, shape and ownership |
| `VmmSystem.SystemRuns` | src/vmm.c:96-285 | page tables and frame allocator together over every run, while others take, give back (frames that are no tables) and reserve: refinement, shape, and every table a frame the allocator still counts as used |
| `VmmSystem.TreeIsTables` | src/vmm.c:31-75 | every frame of the tree is reached from the root through present entries |
| `VmmSystem.Boot` | src/pmm.c:127-200 | after pmm_init_from_map, a zeroed root from pmm_alloc_frame starts such a run with nothing mapped |
| `VmmSpace.AddressSpace.Init` | src/vmm.c:77-94 | an aligned root is installed, any other refused |
| `VmmSpace.AddressSpace.TableFromPhys` | src/vmm.c:24-29 | only aligned, translatable addresses name a table |
| `VmmSpace.AddressSpace.ZeroPage` | src/vmm.c:3-7 | the loop zeroes one table and no other |
| `VmmSpace.AddressSpace.GetOrAllocNextTable` | src/vmm.c:31-75 | equals the specification: follow, refuse huge, or allocate, zero and link |
| `VmmSpace.AddressSpace.MapPage` | src/vmm.c:96-152 | equals the specification on every state |
| `VmmSpace.AddressSpace.QueryPage` | src/vmm.c:154-220 | equals the specification and changes nothing |
| `VmmSpace.AddressSpace.UnmapPage` | src/vmm.c:222-285 | equals the specification on every state |
| `PmmProps.MarkFreeKeeps` | src/pmm.c:35-49 | marking a frame free keeps counters and hint right and changes that frame only |
| `PmmProps.MarkUsedKeeps` | src/pmm.c:51-62 | likewise for marking used |
| `PmmProps.RangeFreeMeans` | src/pmm.c:64-84 | frees exactly the frames wholly inside the range, or all of them if its start wraps, or none if it overflows |
| `PmmProps.RangeUsedMeans` | src/pmm.c:86-109 | reserves exactly the frames the range meets, or none if its end wraps or overflows |
| `PmmProps.InitMeans` | src/pmm.c:127-176 | after boot from plain regions a frame is free iff it is not frame 0, lies wholly inside one usable region and meets no non-empty other region |
| `PmmProps.OrderDoesNotMatter` | src/pmm.c:127-176 | bitmap and counters do not depend on order or repetition of regions |
| `PmmProps.AllocIsLowest` | src/pmm.c:178-200 | the hinted search returns the lowest free frame, fails only when none is free, and its wrap-around loop never finds anything |
| `PmmProps.AllocKeeps` | src/pmm.c:178-200 | allocation marks exactly the frame it returns, which was free |
| `PmmProps.PerformKeeps` | src/pmm.c:178-227 | every operation keeps the allocator running and never hands out frame 0 |
| `PmmProps.RunKeeps` | src/pmm.c:178-227 | on every run: free is the number of clear bits, free + used = frame_count, nothing free below the hint |
| `PmmProps.InitRuns` | src/pmm.c:127-176 | after boot the run invariant holds |
| `PmmProps.FreeThenAlloc` | src/pmm.c:202-219 | a used frame that is freed is free, no other changed, and the next allocation is not above it |
| `PmmProps.InitFrees` | src/pmm.c:64-109 | for every region list, wrapping ones included: a frame is free iff it is not frame 0, some usable region frees it and no other region reserves it |
| `PmmProps.PlainIff` | src/pmm.c:64-94 | exactly when the 64-bit arithmetic does what is meant of a region |
| `PmmProps.TopPageFreesAll` | src/pmm.c:69-74 | a usable region inside the last page of the address space frees every frame but 0 |
| `PmmReplies.FreeSays` | src/pmm.c:202-219 | free accepts exactly the addresses of used frames but 0; that frame is freed, no other changes, the counters move by one; otherwise nothing changes |
| `PmmReplies.FreeIffUsed` | src/pmm.c:213-218 | a frame other than 0 can be freed iff it is used |
| `PmmReplies.FreeUndoesAlloc` | src/pmm.c:178-219 | freeing what alloc returned restores bitmap and counters, and a second free is refused |
| `PmmReplies.AllocSays` | src/pmm.c:178-200 | the lowest free frame with the hint just past it; all ones iff none is free |
| `PmmReplies.ReserveSays` | src/pmm.c:221-227 | the frames the range meets become used, no other changes, and reserved_frames rises by those that were free |
| `PmmReplies.InitCounters` | src/pmm.c:146-173 | reserved_frames and ignored_frames after boot |
| `PmmReplies.InitAccepts` | src/pmm.c:133-145 | boot needs a region, a whole number of frames, at least one, and a bit of storage for each |
| `PmmReplies.NotReady` | src/pmm.c:179-181 | before boot nothing is handed out, taken back or reserved |
| `PmmDevice.FillOnes` | src/pmm.c:156-158 | every bitmap byte in use becomes 0xFF |
| `PmmDevice.FrameAllocator.constructor` | src/pmm.c:111-125 | the zero state |
| `PmmDevice.FrameAllocator.MarkFrameFree` | src/pmm.c:35-49 | bitmap byte, counters and hint in place |
| `PmmDevice.FrameAllocator.MarkFrameUsed` | src/pmm.c:51-62 | bitmap byte and counters in place |
| `PmmDevice.FrameAllocator.MarkRangeFree` | src/pmm.c:64-84 | the loop frees the specified frames |
| `PmmDevice.FrameAllocator.MarkRangeUsed` | src/pmm.c:86-109 | the loop reserves the specified frames |
| `PmmDevice.FrameAllocator.InitFromMap` | src/pmm.c:127-176 | accepts exactly the good arguments and equals the specification; a refusal changes nothing |
| `PmmDevice.FrameAllocator.FreeUsable` | src/pmm.c:160-164 | the pass that frees usable regions |
| `PmmDevice.FrameAllocator.ReserveOthers` | src/pmm.c:168-172 | the pass that reserves all other regions |
| `PmmDevice.FrameAllocator.AllocFrame` | src/pmm.c:178-200 | both search loops, equal to the specification |
| `PmmDevice.FrameAllocator.FreeFrame` | src/pmm.c:202-219 | refuses unaligned, out-of-range and already free frames |
| `PmmDevice.FrameAllocator.ReserveRange` | src/pmm.c:221-227 | reserves the frames met, on an initialised allocator |
| `PmmDevice.FrameAllocator.IsFrameFree` | src/pmm.c:229-239 | reads one bit, false outside the map |
| `Heap.FirstFit` | kernel/mm/kmem.c:188-203 | the lowest free block that fits, none before it |
| `HeapProps.TakeKeeps` | kernel/mm/kmem.c:66-102 | taking a block keeps the tiling and leaves no two free neighbours |
| `HeapProps.ReleaseKeeps` | kernel/mm/kmem.c:222-256 | releasing merges with both neighbours, keeps the tiling and conserves bytes |
| `HeapProps.CoalesceOnce` | kernel/mm/kmem.c:104-133 | where no two free neighbours follow, the coalescing loop merges at most once |
| `HeapProps.TakeAddsLive` | kernel/mm/kmem.c:176-204 | allocation adds one live payload of at least the requested size and moves no other |
| `HeapProps.ReleaseDropsLive` | kernel/mm/kmem.c:222-256 | free removes exactly one live payload and moves no other |
| `HeapProps.RunKeeps` | kernel/mm/kmem.c:66-256 | every run keeps the exact tiling, aligned sizes and no two free neighbours |
| `HeapProps.AllocFailsIff` | kernel/mm/kmem.c:176-204 | a non-zero request, of any size, fails iff no free block holds the rounded size; else the lowest that does is taken |
| `HeapProps.LiveSeparate` | kernel/mm/kmem.c:53-64 | live payloads are 16-aligned, inside the heap and pairwise disjoint |
| `HeapProps.DoubleFree` | kernel/mm/kmem.c:222-256 | after a free, and any frees after it, the pointer is not live |
| `HeapProps.NothingLive` | kernel/mm/kmem.c:104-133 | with nothing live the heap is one free block |
| `HeapProps.FreeAll` | kernel/mm/kmem.c:222-256 | freeing all live pointers in any order returns the single initial block |
| `HeapProps.Conservation` | kernel/mm/kmem.c:258-294 | used + free + 48 per block is the whole heap |
| `HeapMem.SplitRep` | kernel/mm/kmem.c:66-102 | the pointer updates of a split represent the split list, prev and next inverse |
| `HeapMem.MergeRep` | kernel/mm/kmem.c:104-133 | the pointer updates of a merge represent the merged list |
| `HeapReplies.AlignUpSays` | kernel/mm/kmem.c:20-32 | the least multiple of 16 not below, or 0 if there is none below 2^64 |
| `HeapReplies.AllocSays` | kernel/mm/kmem.c:176-204 | a request fails iff it is for 0 bytes or no free block is that large; else the lowest such block is taken, split iff more than 80 bytes are left over |
| `HeapReplies.ReleaseSays` | kernel/mm/kmem.c:222-256 | free makes one block of the freed one and its free neighbours, with their headers; every other block stays |
| `HeapList.KernelHeap.Init` | kernel/mm/kmem.c:135-174 | the exact code for every buffer, and one free block over the aligned rest |
| `HeapList.KernelHeap.SplitIfUseful` | kernel/mm/kmem.c:66-102 | splits exactly when the rest exceeds a header and 32 bytes |
| `HeapList.KernelHeap.InsertHeader` | kernel/mm/kmem.c:89-101 | the writes of a split |
| `HeapList.KernelHeap.RemoveHeader` | kernel/mm/kmem.c:121-131 | the writes of a merge |
| `HeapList.KernelHeap.Alloc` | kernel/mm/kmem.c:176-204 | first fit on the linked headers, equal to the specification |
| `HeapList.KernelHeap.Calloc` | kernel/mm/kmem.c:206-220 | refuses an overflowing product, else allocates it in full |
| `HeapList.KernelHeap.CoalesceForward` | kernel/mm/kmem.c:104-133 | the loop on headers equals the specification |
| `HeapList.KernelHeap.FreeChecked` | kernel/mm/kmem.c:222-256 | the exact code and effect for every pointer |
| `HeapList.KernelHeap.GetStats` | kernel/mm/kmem.c:258-294 | the counts of the list, and used + free + headers = total |
| `HeapList.KernelHeap.Validate` | kernel/mm/kmem.c:296-356 | the walk ends and returns 0 on every reachable heap up to 1,048,576 blocks |
| `HeapList.SecondFreeRefused` | kernel/mm/kmem.c:222-256 | a second free with no allocation in between finds no header or a free one |
| `Mcsfs1.FindSlot` | fs/mcsfs1/mcsfs1.c:227-261 | the first entry with the name, none before it |
| `Mcsfs1.FreeSlot` | fs/mcsfs1/mcsfs1.c:492-503 | the first free entry, none before it |
| `McsInv.FsOkPassesFsck` | fs/mcsfs1/mcsfs1.c:724-794 | a consistent disk passes fsck and mounts |
| `McsInv.FindIsFiles` | fs/mcsfs1/mcsfs1.c:227-261 | lookup finds the entry the map is made from, or the name is not in the map |
| `McsInv.FilesDiffer` | fs/mcsfs1/mcsfs1.c:227-261 | disks that agree on all entries but one mean maps that agree on all other names |
| `McsInv.WriteInodeAt` | fs/mcsfs1/mcsfs1.c:164-209 | writing an inode changes that inode and no other |
| `McsInv.OtherSlot` | fs/mcsfs1/mcsfs1.c:528-534 | rewriting a directory entry keeps every other one |
| `McsInv.LongNameFoundIff` | fs/mcsfs1/mcsfs1.c:243-248 | a stored 27-character name is found iff the next entry's first byte is zero |
| `McsLong.CreatedLongFoundIff` | fs/mcsfs1/mcsfs1.c:471-540 | after create of a 27-character name in entry j < 15 of a consistent disk, lookup finds it iff entry j + 1 is dead |
| `McsLong.LongFoundIffNextDead` | fs/mcsfs1/mcsfs1.c:243-248 | on any disk an entry with a 27-character name is found exactly while the next entry is dead |
| `McsLong.LongLeavesOthers` | fs/mcsfs1/mcsfs1.c:471-540 | creating a 27-character name leaves every file with a shorter name readable as before |
| `McsLong.LongNameLost` | fs/mcsfs1/mcsfs1.c:471-676 | on every formatted device: create a 27-character name, read it, create another file, and the first name now reads NOENT |
| `McsOps.OneEntry` | fs/mcsfs1/mcsfs1.c:471-722 | consistency follows when one entry changes, shares nothing with the others, and those are kept |
| `McsOps.MarkKeeps` | fs/mcsfs1/mcsfs1.c:311-336 | marking a block changes no file |
| `McsOps.CreateRefines` | fs/mcsfs1/mcsfs1.c:471-540 | create adds exactly one empty file, or changes nothing; EXIST iff present |
| `McsOps.UnlinkRefines` | fs/mcsfs1/mcsfs1.c:678-722 | unlink removes exactly the named file; OK iff present |
| `McsWrite.GrowKeeps` | fs/mcsfs1/mcsfs1.c:574-581 | allocation succeeds iff enough data blocks are free; either way no file changes; the grown inode shares no block; a failure leaves no block free |
| `McsWrite.GatherChunks` | fs/mcsfs1/mcsfs1.c:585-606 | the padded pieces in order are the buffer |
| `McsWrite.StoredRefines` | fs/mcsfs1/mcsfs1.c:585-615 | writing data and inode replaces that file's contents and no other's |
| `McsWrite.AllOnDevice` | fs/mcsfs1/mcsfs1.c:600-603 | on a consistent disk no write stops midway at a bad block number |
| `McsWrite.WriteRefines` | fs/mcsfs1/mcsfs1.c:542-616 | write replaces the contents; the exact condition of every code, NOSPC by counting the empty direct blocks it reaches; NOSPC leaves the map unchanged |
| `McsWrite.ReadRefines` | fs/mcsfs1/mcsfs1.c:618-676 | read returns exactly the contents, RANGE iff the buffer is too small, NOENT iff absent |
| `McsRuns.InodeFree` | fs/mcsfs1/mcsfs1.c:263-284 | sixteen entries never use up the inodes |
| `McsRuns.CreateNoSpcIff` | fs/mcsfs1/mcsfs1.c:471-540 | create runs out of space iff there are 16 files or no free data block |
| `McsRuns.FormatRefines` | fs/mcsfs1/mcsfs1.c:359-440 | a formatted device is consistent, empty, with every data block free |
| `McsRuns.PerformRefines` | fs/mcsfs1/mcsfs1.c:471-722 | each call keeps consistency, updates the map as its name says, and returns the one right code |
| `McsRuns.RunRefines` | fs/mcsfs1/mcsfs1.c:471-722 | every run refines the abstract run of the map |
| `McsRuns.FormattedRuns` | fs/mcsfs1/mcsfs1.c:359-794 | from a format on 16..4096 blocks, after any run: fsck OK, at most 16 files of at most 4096 bytes, read gives the abstract contents |
| `McsRuns.ReadLastWrite` | fs/mcsfs1/mcsfs1.c:542-676 | a read gives the last successful write whatever happens to other files in between |
| `McsLoss.GrowTakes` | fs/mcsfs1/mcsfs1.c:311-336 | growing marks exactly the blocks it adds to the inode, or, if it fails, every data block |
| `McsLoss.FailedLost` | fs/mcsfs1/mcsfs1.c:574-581 | a write that runs out of space turns every free data block into a marked one that no file has |
| `McsLoss.PerformLost` | fs/mcsfs1/mcsfs1.c:471-722 | one call changes the set of lost blocks only if it is a write that needs more blocks than are free while some are, and then adds all free ones |
| `McsLoss.RunLost` | fs/mcsfs1/mcsfs1.c:471-722 | over every run lost blocks stay lost, and there are none at the end iff none at the start and no such write |
| `McsLoss.FormattedLoss` | fs/mcsfs1/mcsfs1.c:359-722 | from a format: no block is lost iff no write of the run needed more blocks than were free |
| `McsLoss.LossHappens` | fs/mcsfs1/mcsfs1.c:542-582 | on the smallest device two creates and a 4096-byte write lose six blocks |
| `McsRuns.OwnedOnce` | fs/mcsfs1/mcsfs1.c:263-357 | after any run each live block is a marked data block in exactly one place, names and inodes differ, bits 0..7 stay set |
| `McsReplies.WriteSays` | fs/mcsfs1/mcsfs1.c:567-581 | a write to a file is NOSPC iff the empty direct blocks it reaches (the first, and each that starts before the length) outnumber the free data blocks; else exactly those are filled, one free block each; up to 512 bytes never fail |
| `McsReplies.WriteData` | fs/mcsfs1/mcsfs1.c:583-608 | the blocks written hold the buffer, then zeros |
| `McsReplies.WriteAnswers` | fs/mcsfs1/mcsfs1.c:542-616 | on any disk: NOSPC, RANGE for a block beyond the device, else OK |
| `McsReplies.WriteRefuses` | fs/mcsfs1/mcsfs1.c:552-565 | INVAL for a bad inode number, ISDIR unless a file, with no change |
| `McsReplies.MountSays` | fs/mcsfs1/mcsfs1.c:442-469 | mount is OK iff eleven superblock fields and the root inode are right, else CORRUPT |
| `McsReplies.FsckSays` | fs/mcsfs1/mcsfs1.c:724-795 | fsck is OK iff also root size, clean flag, the marks on blocks 0 to 7 and every entry are sane, else CORRUPT |
| `McsReplies.FormatSays` | fs/mcsfs1/mcsfs1.c:359-440 | a format: every superblock field, exactly bits 0 and 1 and bits 0 to 7, the root inode, zeros elsewhere |
| `McsReplies.NamesRefused` | fs/mcsfs1/mcsfs1.c:83-95 | every call refuses exactly the empty names and those above 27 characters, write any buffer above 4096 bytes |
| `McsReplies.MatchSays` | fs/mcsfs1/mcsfs1.c:242-246 | which entries have a name, in bytes |
| `McsReplies.CreateSays` | fs/mcsfs1/mcsfs1.c:471-540 | on any disk: EXIST iff an entry has the name, NOSPC iff entries, inodes or blocks have run out, else the lowest of each is taken and filled in, and nothing else changes |
| `McsReplies.UnlinkSays` | fs/mcsfs1/mcsfs1.c:678-722 | on any disk: INVAL for a bad inode number, else the entry is zeroed, the bits of inode and blocks are cleared, and nothing else changes |
| `McsReplies.ReadRefuses` | fs/mcsfs1/mcsfs1.c:618-651 | on any disk: INVAL, ISDIR, RANGE, and CORRUPT or RANGE at the first block that cannot be read |
| `McsReplies.ReadSays` | fs/mcsfs1/mcsfs1.c:639-676 | otherwise byte k is byte k % 512 of direct block k / 512, at most 4096 of them |
| `McsReplies.NobodySays` | fs/mcsfs1/mcsfs1.c:227-261 | NOENT for a name no entry has |
| `McsDevice.BoundedLength` | fs/mcsfs1/mcsfs1.c:72-81 | index of the first zero byte, or the bound |
| `McsDevice.SameBytes` | fs/mcsfs1/mcsfs1.c:61-70 | byte-wise equality of a prefix |
| `McsDevice.FindDirent` | fs/mcsfs1/mcsfs1.c:227-261 | the loop finds the first entry with the name |
| `McsDevice.FindFreeDirent` | fs/mcsfs1/mcsfs1.c:492-503 | the loop finds the first free entry |
| `McsDevice.FindClearBit` | fs/mcsfs1/mcsfs1.c:272-291 | the first clear bit of a range, or its end |
| `McsDevice.Volume.Format` | fs/mcsfs1/mcsfs1.c:359-440 | refuses sizes outside 16..4096, else a consistent empty file system |
| `McsDevice.Volume.StoreBmaps` | fs/mcsfs1/mcsfs1.c:219-225 | both bitmap blocks, nothing else |
| `McsDevice.Volume.PutInode` | fs/mcsfs1/mcsfs1.c:187-209 | read-modify-write of one table block |
| `McsDevice.Volume.GetInode` | fs/mcsfs1/mcsfs1.c:164-185 | sixty bytes at the inode's place |
| `McsDevice.Volume.Mount` | fs/mcsfs1/mcsfs1.c:442-469 | the superblock and root checks |
| `McsDevice.Volume.Create` | fs/mcsfs1/mcsfs1.c:471-540 | equals the specification on every disk |
| `McsDevice.Volume.GrowInode` | fs/mcsfs1/mcsfs1.c:574-581 | the allocation loop, with blocks left marked on failure |
| `McsDevice.Volume.FillBlocks` | fs/mcsfs1/mcsfs1.c:585-606 | the copy loop writes every piece, or stops with RANGE at the first block beyond the device |
| `McsDevice.Volume.Write` | fs/mcsfs1/mcsfs1.c:542-616 | equals the specification on every disk, corrupt ones included |
| `McsDevice.Volume.CopyOut` | fs/mcsfs1/mcsfs1.c:645-672 | the copy loop returns the bytes, CORRUPT at a missing block, RANGE at one beyond the device |
| `McsDevice.Volume.Read` | fs/mcsfs1/mcsfs1.c:618-676 | equals the specification on every disk, including a size that claims more than eight blocks |
| `McsDevice.Volume.FreeInodeAndBlocks` | fs/mcsfs1/mcsfs1.c:338-357 | clears the inode bit and the bits of its blocks |
| `McsDevice.Volume.Unlink` | fs/mcsfs1/mcsfs1.c:678-722 | equals the specification on every disk |
| `McsDevice.Volume.Fsck` | fs/mcsfs1/mcsfs1.c:724-794 | the loops decide exactly the specified check |
| `Bcache.Find` | kernel/block/bcache.c:11-22 | the first valid entry of the key, none before it |
| `Bcache.Unused` | kernel/block/bcache.c:48-59 | the first unused entry going round from the hand |
| `BcacheProps.FlushEntryKeeps` | kernel/block/bcache.c:24-39 | a write-back, successful or not, changes no visible block; success leaves the entry clean |
| `BcacheProps.SelectKeeps` | kernel/block/bcache.c:41-72 | choosing a victim is invisible; a chosen victim is clean, and in use only if all entries are |
| `BcacheProps.ReadRefines` | kernel/block/bcache.c:104-144 | a read changes no visible block and, if it succeeds, returns the visible one |
| `BcacheProps.WriteRefines` | kernel/block/bcache.c:145-179 | a successful write changes exactly one visible block, a failed one none |
| `BcacheProps.FlushAllRefines` | kernel/block/bcache.c:180-197 | flush_all is invisible; on success no entry is dirty and the devices hold the view |
| `BcacheRuns.RunRefines` | kernel/block/bcache.c:104-197 | after any run with any failures the view is the plain device's |
| `BcacheRuns.ReadsAreRight` | kernel/block/bcache.c:104-144 | every successful read of a run returns the last successful write to its block or the original bytes |
| `BcacheRuns.FlushIsComplete` | kernel/block/bcache.c:180-197 | after a successful flush the devices hold the last successful writes over the original contents |
| `BcacheRuns.FreshOk` | kernel/block/bcache.c:74-103 | a fresh cache shows the devices as they are |
| `BcacheRuns.FlushAllOkIff` | kernel/block/bcache.c:180-197 | without device failures flush_all succeeds iff no dirty entry is beyond its device |
| `BcacheRuns.ReadWorks` | kernel/block/bcache.c:104-144 | without failures or stuck entries a read fails only for a wrong block size or number |
| `BcacheRuns.WriteWorks` | kernel/block/bcache.c:145-179 | likewise a write fails only for a wrong block size |
| `BcacheReplies.RangeSays` | kernel/block/block.c:62-81 | served iff at least one block is asked for and the last is on the device |
| `BcacheReplies.BlockSays` | kernel/block/block.c:82-102 | a block beyond the device is refused without a driver call, else there is exactly one |
| `BcacheReplies.HitSays` | kernel/block/bcache.c:104-178 | a read hit changes nothing, a write hit its entry alone |
| `BcacheReplies.ReadTwice` | kernel/block/bcache.c:104-143 | after an OK read, reading again asks no device |
| `BcacheReplies.ReadStaysClean` | kernel/block/bcache.c:127-135 | a read makes no entry modified |
| `BcacheReplies.VictimSays` | kernel/block/bcache.c:41-72 | the first unused entry from the hand, else the one under it, written back if modified; the hand moves past it |
| `BcacheReplies.FlushEntrySays` | kernel/block/bcache.c:24-39 | one driver call for a used and modified entry, to its own block, else none |
| `BcacheReplies.FlushAllSays` | kernel/block/bcache.c:180-198 | entries in order, stopping at the first that cannot be written: those before are clean, the rest untouched |
| `RamBlk.PowerOfTwoIs` | kernel/block/ramblk.c:13-15 | the block sizes accepted are the powers of two |
| `RamBlk.SpliceBlocks` | kernel/block/ramblk.c:16-43 | overwriting count blocks' worth of bytes changes those blocks and no other |
| `RamBlk.RamDisk.Rw` | kernel/block/ramblk.c:16-43 | the byte copy in or out at the 64-bit product lba * block_size, or RANGE and no change |
| `RamBlk.RamDisk.CopyIn` | kernel/block/ramblk.c:5-11 | the loop splices the buffer in |
| `RamBlk.RamDisk.CopyOut` | kernel/block/ramblk.c:5-11 | the loop returns the slice |
| `RamBlk.RamDisk.BlkRead` | kernel/block/block.c:62-91 | range check, then the bytes of count blocks, or a driver failure; the storage is untouched |
| `RamBlk.RamDisk.BlkWrite` | kernel/block/block.c:62-102 | range check, then exactly those bytes replaced, or a driver failure confined to them |
| `RamBlk.RamDisk.ReadOne` | kernel/block/block.c:62-91 | for one block: the block of the array view |
| `RamBlk.RamDisk.WriteOne` | kernel/block/block.c:62-102 | for one block: exactly that block of the array view |
| `RamBlk.InitRamDisk` | kernel/block/ramblk.c:81-113 | accepts exactly power-of-two sizes from 512 up and whole numbers of blocks |
| `BcacheDevice.InitCache` | kernel/block/bcache.c:74-103 | refuses zero entries and a zero block size, else a fresh cache |
| `BcacheDevice.BlockCache.constructor` | kernel/block/bcache.c:85-103 | every entry unused and clean |
| `BcacheDevice.BlockCache.FindEntry` | kernel/block/bcache.c:11-22 | the scan equals the specification |
| `BcacheDevice.BlockCache.FlushOne` | kernel/block/bcache.c:24-39 | equals the specification over real devices |
| `BcacheDevice.BlockCache.ChooseVictim` | kernel/block/bcache.c:41-72 | the clock scan and the write-back equal the specification |
| `BcacheDevice.BlockCache.CachedRead` | kernel/block/bcache.c:104-144 | equals the specification and keeps the cache invariant |
| `BcacheDevice.BlockCache.CachedWrite` | kernel/block/bcache.c:145-179 | equals the specification and keeps the cache invariant |
| `BcacheDevice.BlockCache.FlushEverything` | kernel/block/bcache.c:180-197 | the loop equals the specification |
| `Lockdep.BeforeAcquireIff` | kernel/sync/lockdep.c:37-72 | granted iff the class is above everything held and there is room; EDEADLK iff it is not above |
| `Lockdep.AfterReleaseIff` | kernel/sync/lockdep.c:74-102 | accepted iff the class is the newest held; release undoes acquire |
| `Lockdep.BeforeAcquireSays` | kernel/sync/lockdep.c:37-72 | each reply with its condition: EINVAL, EOVERFLOW at 16 held, EDEADLK, OK; a violation adds one, modulo 2^32 |
| `Lockdep.AfterReleaseSays` | kernel/sync/lockdep.c:74-103 | each reply with its condition: EINVAL, EPERM, EDEADLK, OK; a violation adds one, modulo 2^32 |
| `Lockdep.RunCounts` | kernel/sync/lockdep.c:37-103 | over every run of requests the violation count is the number of replies that report one |
| `Lockdep.LockdepState.constructor` | kernel/sync/lockdep.c:3-15 | nothing held |
| `Lockdep.LockdepState.IsHeld` | kernel/sync/lockdep.c:17-35 | membership in the held stack, class 0 never |
| `Lockdep.LockdepState.Before` | kernel/sync/lockdep.c:37-72 | the array form equals the specification |
| `Lockdep.LockdepState.After` | kernel/sync/lockdep.c:74-102 | the array form equals the specification |
| `Spinlocks.StepKeeps` | kernel/sync/spinlock.c:25-63 | every atomic step keeps exclusion and the match of lockdep stacks with the locks really held |
| `Spinlocks.DoneOk` | kernel/sync/m12_selftest.c:13-23 | under the discipline after_release never fails |
| `Spinlocks.Disciplined` | kernel/sync/m12_selftest.c:13-23 | in every reachable state stacks ascend and are at most 16 deep, each lock has at most one holder, and its word is set iff it has one |
| `Spinlocks.ChainClimbs` | kernel/sync/lockdep.c:51-65 | along a chain of waiting threads the classes strictly increase |
| `Spinlocks.NoCircularWait` | kernel/sync/spinlock.c:40-51 | no reachable state has a circular wait of any length |
| `Spinlocks.SomeoneCanRun` | kernel/sync/spinlock.c:40-51 | from any thread that waits for a taken lock, a chain of threads each waiting for a lock the next holds ends at one that is not blocked |
| `SpinProgress.WaitsIs` | kernel/sync/spinlock.c:40-51 | a thread waits from the grant of its request until it has exchanged a 0 |
| `SpinProgress.FreeLockIsTaken` | kernel/sync/spinlock.c:40-51 | a thread waiting for a free lock holds it after two of its operations |
| `SpinProgress.TakenLockSpins` | kernel/sync/spinlock.c:43-49 | while the lock is taken its waiters change no lock word and no one's held locks |
| `SpinProgress.TakeAndGive` | kernel/sync/spinlock.c:25-63 | taking a free lock that lockdep grants, and giving it back, is the identity |
| `SpinProgress.CanTake` | kernel/sync/spinlock.c:40-63 | a waiting thread can get its lock, by steps of its own and of threads holding its class or a higher one |
| `SpinProgress.NeverStuck` | kernel/sync/spinlock.c:40-63 | from every reachable state, for every thread in mcs_spin_lock, there is a continuation in which it holds its lock |
| `Mutex.StepKeeps` | kernel/sync/mutex.c:28-98 | every atomic operation of every thread keeps the invariant |
| `Mutex.MutualExclusion` | kernel/sync/mutex.c:28-98 | at most one thread is inside, and the word is set iff one is |
| `Mutex.CallsAreRight` | kernel/sync/mutex.c:28-98 | in every interleaving each call returns the right code: unlock OK iff holder, EDEADLK iff the caller holds it, lock OK only when free |
| `Mutex.FreeIsTakeable` | kernel/sync/mutex.c:38-45 | a compare-exchange succeeds iff nobody is inside |
| `Mutex.CallReturns` | kernel/sync/mutex.c:28-98 | no call waits: it has returned once its thread has done three operations, whatever the others do |
| `Mutex.LockAlone` | kernel/sync/mutex.c:28-65 | a free mutex is taken, with OK, and the taker is the owner |
| `Mutex.LockTaken` | kernel/sync/mutex.c:38-56 | a taken mutex answers EDEADLK to its owner, EBUSY to others, and stays |
| `Mutex.UnlockAlone` | kernel/sync/mutex.c:67-98 | unlock frees the mutex of its owner and is EPERM, with no change, for others |
| `Scheduler.DistinctIs` | kernel/mcsos_thread.c:48-66 | the precondition of the scheduler lemmas: no thread is queued twice or queued and running |
| `Scheduler.YieldRotates` | kernel/mcsos_thread.c:83-113 | a yield moves the running thread to the end of the line and loses none |
| `Scheduler.RunDistinct` | kernel/mcsos_thread.c:48-113 | over every run no thread is in two places and none is lost |
| `Scheduler.MovesUp` | kernel/mcsos_thread.c:83-113 | a queued thread moves up one place per yield whatever is enqueued |
| `Scheduler.RunsAfterExactly` | kernel/mcsos_thread.c:83-113 | the thread at position k becomes current on exactly the (k+1)-th later yield |
| `Scheduler.NotBefore` | kernel/mcsos_thread.c:83-113 | and is queued and not running before that |
| `Scheduler.FullTurn` | kernel/mcsos_thread.c:83-113 | with n queued, n + 1 yields restore the starting order |
| `ThreadQueue.ReadyQueue.constructor` | kernel/mcsos_thread.c:3-20 | the boot thread runs, nothing is ready |
| `ThreadQueue.ReadyQueue.LinkAtTail` | kernel/mcsos_thread.c:51-59 | the pointer work for any thread at all |
| `ThreadQueue.ReadyQueue.EnqueueAny` | kernel/mcsos_thread.c:48-66 | the writes of enqueue for any thread: afterwards some queue makes the scheduler valid iff the thread was neither running nor queued; and what becomes of the list otherwise |
| `ThreadQueue.ReadyQueue.EnqueueThread` | kernel/mcsos_thread.c:48-66 | the pointers spell the queue with the thread appended |
| `ThreadQueue.ReadyQueue.YieldCpu` | kernel/mcsos_thread.c:83-113 | the pointers spell the rotated line; with nothing ready it fails and changes nothing |
| `ThreadQueue.ReadyQueue.Tick` | kernel/mcsos_thread.c:73-81 | one more tick for the running thread |
| `ThreadQueue.ReadyQueue.ReadyCount` | kernel/mcsos_thread.c:68-71 | the queue length, truncated to 32 bits |
| `ThreadQueue.ReadyQueue.Validate` | kernel/mcsos_thread.c:115-136 | the walk ends and succeeds iff all queued threads are ready and the counter is right |

## Left out

- JournalCrash.RecoveryIdempotent: for logs whose targets lie outside LBAs 1..17, which M16Runs.FormattedHistory shows of every state the file system makes; the converse is false as it stands, since a log may also harmlessly rewrite a journal block with what it holds.
- JournalCrash.RecoverIsPlan: likewise; a log that rewrites its own later records is not fixed at the start of recovery.
- JournalCrash.RecoverCut: likewise.
- McsOps.CreateRefines: for names of at most 26 characters, as are UnlinkRefines, WriteRefines, ReadRefines and the runs built on them; McsLong shows what 27 do.
- McsInv.LongNameFoundIff: at the last of the 16 entries the code's bound of 28 reaches one byte past the block, whose value the model does not have.
- Mcsfs1.FindSlot: stops at the block's end there, for the same reason.
- McsDevice.FindDirent: likewise.
- PmmProps.InitMeans: for the regions that PmmProps.PlainIff singles out; PmmProps.InitFrees has every list.
- HeapList.KernelHeap.Init: the buffer is taken to hold no stale header, and payload words never to spell the header magic, because headers are recognised by it; the whole buffer lies below the top of the address space.
- HeapList.KernelHeap.Calloc: payload bytes are not modelled, so zeroing appears only as the allocated size covering the request.
- VmmSpace.AddressSpace.Init: the callbacks are not fields; phys_to_virt is the domain of the table map.
- VmmSpace.AddressSpace.MapPage: tables are values in a map field, updated entry by entry; the frame callback is its list of coming answers.
- Bcache.Unused: index arithmetic is unbounded, so caches of 2^31 entries or more, where the code's 32-bit sum could wrap, are not covered.
- ThreadQueue.ReadyQueue.EnqueueThread: for a thread neither running nor queued, as the code assumes; EnqueueAny has every other one.
- Null-pointer argument checks, display names and the block device registry.
- Failing device callbacks under MCSFS1; crash reasoning is done on the journalled file system.
- Memory orderings of the atomics: steps are sequentially consistent.
- MMU access rights, TLB, CR3 and invlpg; properties are about the software walk.
- mcsos_thread_prepare and the context switch, which set up stacks and registers.
- System calls, the ELF loader, the VFS, drivers, interrupts, logging and self-tests: straight-line or hardware-bound code, or weaker forms of what is proved here.
