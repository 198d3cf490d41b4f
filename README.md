# Sharded LRU buffer cache (kernel/bio.c), modelled in Dafny

The buffer cache keeps a fixed pool of NBUF buffer slots, each caching one
disk block `(dev, blockno)` together with a `valid` flag, a reference count
`refcnt` and a content (sleep) lock. The slots are spread over `NBUCKET = 13`
hash buckets, `BHASH(blockno) = blockno % 13`; each bucket is a recency
list, head (most recently used) to tail (least recently used).

* `binit` puts every slot into bucket 0.
* `bget(dev, blockno)` scans the home bucket from the head for the block. On
  a hit it takes one more reference and the content lock. On a miss it
  recycles the unreferenced slot nearest the tail of the home bucket in
  place. Failing that, it scans buckets 0..12 in order, skipping home, each
  from the tail; the first unreferenced slot it finds is unlinked and
  appended at the tail of the home bucket. If no slot is free it panics.
* `bread` is `bget` followed by a disk read when the slot is not valid.
* `bwrite` writes the slot to disk; `brelse` drops the content lock and a
  reference, and moves a slot whose count reaches 0 to the head of its
  bucket. Both panic unless the content lock is held.
* `bpin` / `bunpin` add or drop one reference and nothing else.

The project has five modules.

* `Seqs` (seqs.dfy): unlinking from a list as a sequence operation.
* `BioSpec` (bio_spec.dfy): the cache as a value. `State` holds the slots,
  the 13 bucket lists (slot indices, head first) and two pieces of proof
  bookkeeping per slot: `issued` (bget has handed the slot out at least once) and `pins`
  (outstanding bpin calls). `Inv` is the invariant. `BGet`, `BRead`,
  `BWrite`, `BRelse`, `BPin` and `BUnpin` are the operations as functions;
  a panic is the result `Err(...)` and leaves the state unchanged.
* `BioLemmas` (bio_lemmas.dfy): what the operations guarantee, proved on
  `BioSpec`.
* `Bio` (bio.dfy): the imperative cache. `BufferCache` holds the slot array
  `buf` and the bucket array `buckets`, and has one method per C function
  with the same loops. Each of `Get`, `Read`, `Write`, `Release`, `Pin` and
  `Unpin` is proved to leave exactly the state and result the matching
  `BioSpec` function gives. All of them except `Write` also state that they
  keep `Valid()`. `Write` changes only the disk, so `Valid()` holds after it
  because nothing it reads has changed. The helpers `Lookup`, `LruFree`,
  `Victim`, `Install` and `FillIfInvalid` are instead proved equal to a scan
  function or a state update. `Disk`
  stands for the device driver: a map from block to contents plus a log of
  the requests it served.
* `BioScenario` (bio_scenario.dfy): a concrete run on a pool of two slots,
  showing that the slot released longest ago is the one recycled.

Uniqueness of cached blocks needs care at boot: every slot holds the identity
`(0, 0)`, so "no two slots hold the same block" holds only for identities
that bget has handed out (`issued`). The invariant also says that, within a
bucket, a slot that was never issued never precedes an issued slot with the
same identity. This is what makes a hit on a boot-time `(0, 0)` slot safe.

## Model

| member | source | states |
|---|---|---|
| Bio.BufferCache.constructor | kernel/bio.c:39-61 | after binit every bucket but 0 is empty and bucket 0 lists every slot, each unreferenced; the state is `InitState(n)` and satisfies the invariant |
| BioSpec.InitState | kernel/bio.c:39-61 | the zero-initialised statics after binit: n slots, 13 buckets, every slot unreferenced, invalid, unlocked, never handed out and unpinned |
| BioSpec.Inv | kernel/bio.c:28-37 | the invariant over `bcache`: every listed index is a slot; a slot in bucket k hashes to k; every slot is listed in its home bucket, and no bucket lists a slot twice; the count covers pins and a held lock; referenced or valid slots have been handed out; handed-out slots hold distinct blocks; within a bucket a never-handed-out slot never precedes a handed-out one with the same identity |
| BioSpec.BHash | kernel/bio.c:27 | the home bucket is one of the 13, and block numbers 13 apart share it |
| BioLemmas.InitInv | kernel/bio.c:44-59 | the boot state satisfies the invariant; bucket 0 holds exactly the slots `0..n-1`, each once; buckets 1..12 are empty; every slot has `refcnt == 0` and is neither valid nor locked |
| BioLemmas.DescendingFacts | kernel/bio.c:53-59 | inserting slots 0..n-1 in turn at the head leaves bucket 0 as `n-1, ..., 0` |
| BioSpec.FindBlock | kernel/bio.c:77-86 | the scan from the head returns the first position holding the block, and none when no later position holds it |
| BioSpec.FindFree | kernel/bio.c:108-119 | the scan from the tail returns the unreferenced slot nearest the tail, and none when every slot is referenced |
| BioSpec.FindVictim | kernel/bio.c:126-152 | the scan of the other buckets in index order returns the first bucket with an unreferenced slot and that slot's last position; every earlier non-home bucket is fully referenced |
| BioSpec.Hold | kernel/bio.c:79-83 | a hit keeps the slot's identity, valid flag and contents, adds one reference and takes the content lock |
| BioSpec.Claim | kernel/bio.c:110-115 | a recycled slot gets the requested identity, is not valid, has exactly one reference and is locked; its old contents stay but are not valid |
| BioSpec.Migrated | kernel/bio.c:133-142 | the slot at position p of bucket k is unlinked from bucket k, appended at the tail of the home bucket and recycled for the block; other buckets and slots are unchanged, and the slot is marked as handed out |
| BioSpec.BGet | kernel/bio.c:66-154 | bget keeps the state well formed, and a returned slot index is within the pool |
| Bio.BufferCache.Lookup | kernel/bio.c:77-86 | the loop over the home bucket returns what `FindBlock` specifies |
| Bio.BufferCache.LruFree | kernel/bio.c:108-119 | the backward loop over a bucket returns what `FindFree` specifies |
| Bio.BufferCache.Victim | kernel/bio.c:126-152 | the loop over buckets 0..12, skipping home, returns what `FindVictim` specifies |
| Bio.BufferCache.Install | kernel/bio.c:79 | the field updates of a hit (line 79) or a recycle (lines 110-113, 139-142) change exactly that slot and mark it handed out |
| Bio.BufferCache.Get | kernel/bio.c:66-154 | bget changes the cache exactly as `BGet` says and keeps the invariant |
| BioLemmas.GetKeepsInv | kernel/bio.c:66-154 | every outcome of bget (hit, recycle in place, migration, panic) keeps the invariant |
| BioLemmas.HitKeepsInv | kernel/bio.c:77-86 | taking a reference on the slot found keeps the invariant |
| BioLemmas.ClaimKeepsInv | kernel/bio.c:108-119 | recycling an unreferenced home slot for an absent block keeps the invariant |
| BioLemmas.MigrateKeepsInv | kernel/bio.c:130-147 | unlinking an unreferenced slot from another bucket, appending it to the home tail and recycling it keeps the invariant |
| BioLemmas.MissMeansAbsent | kernel/bio.c:76-87 | when the home bucket does not hold the block, no slot anywhere holds it |
| BioLemmas.GetHit | kernel/bio.c:77-86 | if any slot holds the block, bget returns the first such slot from the head of the home bucket, which is the issued holder when there is one; its count grows by 1 and it is locked; no list and no other slot changes |
| BioLemmas.GetRecycleInHome | kernel/bio.c:108-119 | for an absent block with a free home slot, bget takes the unreferenced home slot nearest the tail, in place: new identity, not valid, `refcnt == 1`, locked; lists and other slots unchanged |
| BioLemmas.GetMigrate | kernel/bio.c:124-148 | for an absent block with a fully referenced home bucket and some free slot, bget takes the free slot nearest the tail of the first non-home bucket that has one; that slot moves to the tail of the home bucket and is recycled; nothing else changes |
| BioLemmas.GetFailsIff | kernel/bio.c:153 | bget panics exactly when no slot holds the block and every slot is referenced, and the panic changes nothing |
| BioLemmas.FailMeansFull | kernel/bio.c:126-153 | reaching the panic means every slot is referenced and none holds the block |
| BioLemmas.GetTakesOnlyFree | kernel/bio.c:108-147 | bget returns a slot that held the block, or one that was unreferenced while the block was absent; it then holds the block, locked, referenced; every other slot is unchanged |
| BioLemmas.PinnedKeepsIdentity | kernel/bio.c:109 | a pinned slot is never recycled by bget |
| BioLemmas.GetKeepsValidData | kernel/bio.c:108-113 | a slot that keeps its identity through bget keeps its valid flag and its contents |
| BioLemmas.GetIssuesUnique | kernel/bio.c:66-154 | the identity bget returns is held by no other issued slot, and afterwards no two referenced slots hold the same block |
| BioLemmas.InvLiveUnique | kernel/bio.c:28-37 | under the invariant no two referenced slots hold the same block |
| BioLemmas.OneBucket | kernel/bio.c:189 | a slot is in bucket k exactly when k is the hash of its block number, which is why brelse finds it in `BHASH(b->blockno)` |
| BioSpec.NeedsRead | kernel/bio.c:163 | bread reads the disk only for a slot bget returned holding the requested block; when bget succeeds and no read is needed, that slot held the block with valid contents before the call |
| BioLemmas.NeedsReadIff | kernel/bio.c:162-166 | bread goes to the disk exactly when bget succeeds and no slot holds the block with valid contents |
| BioSpec.BRead | kernel/bio.c:157-168 | bread keeps the pool size |
| Bio.BufferCache.Read | kernel/bio.c:157-168 | bread changes the cache exactly as `BRead` says; the disk is read once when the slot was not valid and not at all otherwise |
| Bio.BufferCache.FillIfInvalid | kernel/bio.c:163-166 | when the returned slot is not valid, it gets the disk's contents for its block and its valid flag, and the disk serves one read of that block; otherwise nothing changes; no other slot, list or bookkeeping changes |
| BioLemmas.ReadIsGetThenFill | kernel/bio.c:162-166 | bread is bget followed, exactly when bget's slot is not valid, by filling that slot from the disk's contents for the requested block; bget's slot holds the requested block |
| BioLemmas.ReadKeepsInv | kernel/bio.c:157-168 | bread keeps the invariant |
| BioLemmas.ReadReturnsValid | kernel/bio.c:162-167 | bread returns bget's slot, valid, locked and holding the block, with the disk's contents when it was not valid and its old contents otherwise; lists and other slots are as bget left them |
| BioLemmas.ValidHitReadsNothing | kernel/bio.c:163-166 | bread of a block cached in a valid slot reads nothing and returns that slot with its contents |
| BioLemmas.RereadReadsNothing | kernel/bio.c:163-166 | bread, brelse, bread of the same block returns the same slot the second time without a disk read, with the same contents |
| Bio.Disk.ReadBlock | kernel/bio.c:164 | a device read returns the stored contents (empty for a never written block) and logs the request |
| Bio.Disk.WriteBlock | kernel/bio.c:176 | a device write stores the contents for that block only and logs the request |
| BioSpec.BWrite | kernel/bio.c:171-177 | bwrite fails with WriteNotHeld exactly when the content lock is not held, leaving the disk as it was; otherwise the disk gains (or keeps) an entry for the slot's block and no other |
| Bio.BufferCache.Write | kernel/bio.c:171-177 | bwrite panics without the content lock; otherwise it writes the slot's contents to disk; the cache never changes |
| BioLemmas.WriteEffect | kernel/bio.c:171-177 | bwrite fails exactly when the content lock is not held, and then leaves the disk alone; otherwise the disk holds the slot's contents for its block and every other block is unchanged |
| BioSpec.BRelse | kernel/bio.c:181-203 | brelse fails exactly when the content lock is not held; otherwise the slot is unlocked and its count drops by exactly 1; the pool size and the bookkeeping are unchanged |
| Bio.BufferCache.Release | kernel/bio.c:181-203 | brelse changes the cache exactly as `BRelse` says and keeps the invariant |
| BioLemmas.ReleaseKeepsInv | kernel/bio.c:181-203 | brelse keeps the invariant |
| BioLemmas.ReleaseEffect | kernel/bio.c:181-203 | brelse fails exactly when the content lock is not held, changing nothing; otherwise it unlocks the slot and drops one reference; only when the count reaches 0 does the slot move to the head of its bucket, the other entries keeping their order; no other list or slot changes |
| BioLemmas.HeadMoveFacts | kernel/bio.c:194-199 | unlinking a slot and relinking it at the head keeps the same slots, each once, and the order of the others |
| Seqs.RemoveAtFacts | kernel/bio.c:133-134 | unlinking an entry removes exactly that entry and keeps the list free of duplicates |
| BioSpec.BPin | kernel/bio.c:205-211 | bpin raises the slot's count by 1 and keeps its identity, the lists and `issued`; `pins[b]` moves with the count |
| BioLemmas.HeldIsReferenced | kernel/bio.c:191 | under the invariant a locked or pinned slot has a positive count, so the decrements in brelse and bunpin never wrap around |
| Bio.BufferCache.Pin | kernel/bio.c:205-211 | bpin adds one reference and changes nothing else, keeping the invariant |
| BioLemmas.PinKeepsInv | kernel/bio.c:205-211 | bpin keeps the invariant, the lists and every other slot; only the count of that slot grows by 1 |
| BioSpec.BUnpin | kernel/bio.c:213-219 | bunpin lowers the slot's count by 1 and keeps its identity, the lists and `issued`; `pins[b]` moves with the count |
| Bio.BufferCache.Unpin | kernel/bio.c:213-219 | bunpin drops one reference and changes nothing else, keeping the invariant |
| BioLemmas.UnpinKeepsInv | kernel/bio.c:213-219 | bunpin keeps the invariant, the lists and every other slot; only the count of that slot drops by 1 |
| BioScenario.Booted | kernel/bio.c:53-59 | with two slots, binit leaves slot 0 at the tail of bucket 0 |
| BioScenario.ReadThirteen | kernel/bio.c:108-119 | bread of block 13 recycles the tail slot 0 and reads the disk |
| BioScenario.ReleaseThirteen | kernel/bio.c:191-200 | brelse of slot 0 moves it to the head of bucket 0 |
| BioScenario.WriteThirteen | kernel/bio.c:171-177 | after its holder puts new contents in slot 0, bwrite stores them for block 13, which then reads back those contents; block 26 is unchanged |
| BioScenario.ReadTwentySix | kernel/bio.c:108-119 | bread of block 26 then recycles slot 1, now the tail |
| BioScenario.ReleaseTwentySix | kernel/bio.c:191-200 | brelse of slot 1 moves it to the head, leaving slot 0 at the tail |
| BioScenario.GetThirtyNine | kernel/bio.c:108-119 | bget of block 39 recycles slot 0, released longest ago, which must then be read from disk |
| BioScenario.TwentySixStillCached | kernel/bio.c:77-86 | block 26 is still cached afterwards, and reading it again needs no disk read |

## Left out

- Spinlocks, the `superlock` and lock ordering are left out: the model is sequential.
- The content lock is the `locked` flag. The model does not capture blocking in `acquiresleep`: a hit on a slot locked by someone else succeeds at once. Two holders then share one flag. The first brelse clears it, so a second holder's bwrite and brelse then fail, and its reference is never dropped. In the kernel the second caller would sleep until the first brelse, and then its own brelse would succeed.
- The re-scan of the home bucket under the `superlock` (kernel/bio.c:94-103) is modelled by the single first scan. Run sequentially, both scans find the same slot.
- `virtio_disk_rw` is the `Disk` class: a map from block to contents. A block never written reads as the empty block.
- The block size, and the caller's own copying into `b->data`, are left out; contents are opaque byte sequences.
- The prev/next pointer lists are sequences of slot indices, head first. Each splice is the corresponding sequence update.
- Bio.BufferCache.Pin: requires the caller to hold a reference (`refcnt > 0`), as the kernel's callers do. bpin on an unreferenced slot is not modelled.
- Bio.BufferCache.Unpin: requires an earlier bpin on the slot. The unsigned wrap-around of `refcnt--` on an unpinned slot is not modelled.
- BioLemmas.PinKeepsInv: has the same requirement as `Pin` (`refcnt > 0`). Pinning an unreferenced slot that bget never handed out would break the invariant.
- BioLemmas.UnpinKeepsInv: has the same requirement as `Unpin` (an earlier bpin, `pins[b] > 0`).
- BioSpec.BUnpin: requires an earlier bpin on the slot (`pins[b] > 0`), as `Unpin` does. bunpin without one is not modelled.
- BioSpec.BRelse: a locked slot always has `refcnt >= 1` under the invariant, so the unsigned wrap-around of `refcnt--` cannot arise and is not modelled.
- Panics are results (`Err(NoBuffers)`, `Err(WriteNotHeld)`, `Err(ReleaseNotHeld)`) that leave the state unchanged; the panic text is left out.
- A migrated slot is appended at the tail of the home bucket (kernel/bio.c:135-138), as the code does, not at its head.
- NBUF comes from `param.h`, which is not part of this model; the pool size is a parameter.
- user/find.c and user/pingpong.c are not part of this model: they are user programs doing file-system and process I/O.
