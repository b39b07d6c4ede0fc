# A verified model of the DRM core

This project models the parts of the DRM core that keep state or compute layouts, and proves what they
promise. Verify it with `dafny verify dfyconfig.toml` (Dafny 4.11).

| files | what they model |
|---|---|
| `MmState`, `MmAlloc`, `MmFit`, `MmPlace`, `MmPool`, `MmCoarse`, `MmRuns`, `MmScan`, `MmEvict`, `MmReclaim`, `MmOrder`, `MmSameOrder`, `MmHistory`, `MmStale`, `MmCases`, `DrmMm` | the range allocator and its LRU scan (`drm_mm.c`) |
| `HwLock`, `HwLockAlone` | the heavyweight lock and the idlelock (`drm_lock.c`) |
| `HashTab`, `HashRcu`, `MapHandle` | the open hash table, its lock-free readers, and the map handles kept in it (`drm_hashtab.c`, `drm_bufs.c`) |
| `VblankPipe`, `VblankCrtc`, `VblankRing`, `VblankEvents` | vblank counts, references, timestamps and events (`drm_irq.c`, `drm_fops.c`) |
| `Masters`, `Handshake` | masters, the magic handshake, open and release (`drm_fops.c`, `drm_stub.c`, `drm_auth.c`) |
| `Edid`, `EdidRecord` | fetching, repairing and assembling an EDID (`drm_edid.c`) |
| `Surface` | the layout of a surface in a guest buffer (`svga3d_surfacedefs.h`) |
| `ModeLine`, `ModeAccepts`, `Cvt`, `CvtParts` | mode names, the mode option, coordinated video timings (`drm_modes.c`) |
| `Basics`, `Arith` | options, 32-bit width and powers of two; facts about products and remainders |

How it is put together:

- Code that changes objects in place is a class whose methods are tied to a function on values: after each
  method the abstract state `St()` is that function of the state before. `DrmMm.Mm` works on node objects,
  `HashTab.OpenHash` on an array of buckets, `VblankCrtc.Crtc` on the fields and the timestamp slots of a
  pipe, `Masters.Device` on the tables of files, masters and minors, `Edid` on byte arrays. The theorems are
  lemmas about those functions, over every state or every run.
- Code that runs concurrently is a step machine. In `HwLock` threads interleave between any two accesses to
  the lock word and between spinlock regions; in `VblankRing` between any two words; in `HashRcu` between any
  two links; in `VblankEvents` between lock regions.
- Memory that may be missing, drivers that may refuse, the hardware's registers, the i2c bus and the hash
  function are parameters, so every statement holds for all of their answers.
- Where C arithmetic wraps, the wrap is written out (`% U32`); elsewhere integers are mathematical.

What the model shows the code to do where its comments or its intent say otherwise:

- `drm_mm_split_at_start` does not reset `free`. A node that was absorbed as a free successor goes to the pool
  with the bit set, and a block later made of it is on the list as free. `MmPlace.GetPlaces` says exactly when
  a get leaves a well formed allocator, `MmHistory.RunKeepsValid` that runs end well formed exactly when no get
  met such a node, and `MmStale.StaleIsReached` goes from a new manager to a get that does.
- The comment at `drm_mm.c:470-472` asks for removal from the scan list in the order of addition. What matters is
  that a block that absorbed another one, which had itself absorbed a neighbour, goes before that one
  (`MmOrder.AnyOrder`). The reverse order always does that (`MmEvict.ScanUndo`); the order of addition does it if
  and only if no block was added beside two cells in a row that were free or scanned by then
  (`MmSameOrder.SameOrder`), and `MmHistory.SameOrderLosesBlock` is a case where it does not.
- Takedown's test passes with blocks still allocated in front of a free tail (`MmHistory.TakedownExact`), as after
  the first get from a new manager (`MmCases.TakedownWithBlock`).
- `drm_mm_clean` holds if and only if nothing is allocated or a single block takes the whole range
  (`DrmMm.Mm.Clean`); the second is one get away from a new manager (`MmHistory.WholeIsTaken`).
- With `best_match` the search finds no hole of 2^64 - 1 units, even if that is the only one that fits
  (`DrmMm.Mm.SearchFree`, `DrmMm.HugeHoleIsMissed`).
- The block freed by an eviction need not be on top of the free stack, as `drm_mm.c:473-476` has it
  (`MmCases.EvictedBelowTop`). It is the only one that fits, and found wherever it is, if and only if every hole
  that fitted before the scan lies in the hit (`MmEvict.EvictedIsFound`).
- Removal from the scan list returns 1 without any hit having been reported for one kind of block only, an
  empty one at address 0 (`MmEvict.NoHitNoEviction`, `MmCases.EmptyBlockIsEvicted`).
- A request for a vblank event that fails for lack of memory or space keeps the reference its caller took: a
  pipe's count is too high by the number of its failed requests, and after the first one its interrupt is never
  turned off again (`VblankEvents.ReferencesCovered`, `VblankEvents.FailureLeaves`).
- Frames missed across a wrap of the hardware counter are counted right only if `max_vblank_count` is the
  counter's modulus, and not its largest value (`VblankPipe.MissedIsExact`).
- A kernel user that asks for the idlelock after a client in `drm_lock_free` has looked at `kernel_waiters` is not
  handed the lock, which is then left free: exactly those kernel users are passed over whose cmpxchg is refused
  between that look and the cmpxchg that frees the lock (`HwLock.UnlockDecides`, `HwLock.HandoverCanBeMissed`).
- `drm_lock_take` with a context that overlaps the flag bits leaves the lock held and reports failure
  (`HwLockWord.TakeNeedsPlain`).
- `drm_setmaster_ioctl` returns 0 whatever happened, and a released master file takes even root's
  authentication away, which `drm_fops.c:251` calls permanent (`Masters.ReleaseRevokes`).
- A base block that does not start with 0 is held neither to the EDID header nor to its version, and one that
  starts with 2 not even to the checksum (`Edid.ReturnedIsEdid`, `Edid.TaggedIsReturned`).
- `svga3dsurface_get_image_buffer_size` is overflow-safe but for the pitch and the rounding to blocks
  (`Surface.SizeIsExact`, `Surface.WideImageTakesNoRoom`).
- The mode option accepts a line without a width, which is then 0 (`ModeLine.ResolutionIsThere`,
  `ModeLine.HeightAlone`).
- The frames of a second fit into it, but for a line each and unless the porch is clamped, if and only if there are
  at most 1818 of them (2173 with reduced blanking) and their product with the lines stays within 32 bits
  (`Cvt.FieldTime`, `Cvt.ReducedFieldTime`); the mode option asks for any rate (`Cvt.FastModeTakesTooLong`,
  `Cvt.FastReducedModeTakesTooLong`).
- The horizontal parts of a mode are in order if and only if its blanking fits its line; a product of 32 bits may
  leave a wide mode with no blanking at all (`Cvt.StandardOrder`, `Cvt.WideModeLosesBlanking`).
- The clock of a mode with lines longer than 4294 pixels is computed from a product that has lost its high bits
  (`Cvt.ClockIsExact`, `Cvt.WideModeLosesClock`).

## Model

| member | source | states |
|---|---|---|
| MmState.FuseKeepsShape | drm_mm.c:226-284 | A cell that becomes free and absorbs its free neighbours leaves a tiling of the same range with no two free neighbours |
| MmAlloc.PutMembers | drm_mm.c:240-283 | Which nodes stay on the list when a block is returned: all but the block, if a neighbour is free, and the free successor, if both are |
| MmAlloc.PutKeepsStack | drm_mm.c:252-274 | After a put the free stack holds exactly the free nodes, once each |
| MmAlloc.PutKeepsValid | drm_mm.c:226-284 | A put keeps the whole allocator invariant, and on the list does exactly one coalescing |
| MmAlloc.PutFromHalfway | drm_mm.c:237-284 | The two-step merge of the code, predecessor first, amounts to that coalescing in each of its four cases |
| MmFit.WasteIsLeast | drm_mm.c:155-166 | The bytes wasted lead to the lowest aligned address not below the start |
| MmFit.FreeHoleExact | drm_mm.c:288-307 | The hole test passes if and only if an aligned place exists in the hole, and that place is the lowest |
| MmFit.FreeHoleGrows | drm_mm.c:288-307 | A hole over a hole that fits fits too |
| MmFit.RangeHolePlaces | drm_mm.c:194-200 | The clipped test of the range search passes if and only if an aligned place exists in the hole and in the range, and the range get goes to such a place |
| MmPlace.GetPlaces | drm_mm.c:150-219 | A get leaves a well formed allocator if and only if the block is not made of a node with a stale free bit; then the block has exactly the requested size at the aligned place, the rest of the hole stays free around it; a get that fails leaves every listed node as it was |
| MmPlace.BlockAt | drm_mm.c:150-219 | Start, size and free bit of the block a get returns |
| MmPlace.StaleBreaks | drm_mm.c:125-147 | A block made of a stale node breaks the invariant, always |
| MmPlace.Rollback | drm_mm.c:207-217 | When the second split finds no memory, putting the first part back restores list, free stack and nodes |
| MmPool.PutFillsPool | drm_mm.c:252-283 | Nodes that leave the list in a put go on top of the pool while it holds fewer than four, in their order; the others are freed |
| MmPool.GetFails | drm_mm.c:51-74 | A get of a block that is not stale fails if and only if what it skips and what it leaves of the hole take more nodes than there is memory for and the pool has; it takes just those, in line, and a failed one gives back what it took |
| MmPool.TwoAreEnough | drm_mm.c:76-101 | Two nodes in the pool are enough for any get, without any memory |
| MmPool.PreGetIs | drm_mm.c:81-101 | Preparing for a get adds clean nodes at the end of the pool, and changes nothing else |
| MmPool.PutIsRecent | drm_mm.c:271-273 | A put leaves the holes on the free stack in their order, and puts a block that merges with none on top |
| MmPool.GetIsRecent | drm_mm.c:150-180 | So does a get: what it skips goes on top, what is left of the hole stays in its place |
| MmCoarse.RegionIsCell | drm_mm.c:226-284 | A maximal run of freed or free cells has become one free cell over the same addresses |
| MmRuns.PutAllCoarse | drm_mm.c:226-284 | However blocks are returned, in whatever order, the list is the original one coarsened by what was returned |
| MmRuns.AllReturned | drm_mm.c:226-284 | Returning every block, in any order, leaves one free node over the whole range |
| MmRuns.CleanIs | drm_mm.c:531-536 | The list has one node if and only if nothing is allocated or one block takes the whole range; nothing is allocated if and only if one free node covers it |
| MmHistory.RunKeepsValid | drm_mm.c:76-528 | Over every run of gets, puts, preparations and whole scans with any removal order that can be carried out, stale nodes included: the nodes tile the range in address order, no two neighbours are free and the free stack is exact at its end, if and only if no get made a block of a stale node |
| MmHistory.PoolStaysSmall | drm_mm.c:49 | Over every such run the pool has at most four nodes |
| MmHistory.ScanLeaves | drm_mm.c:378-528 | A scan leaves everything as it was, but for its parameters and its hit |
| MmHistory.NothingIsLost | drm_mm.c:552-564 | After any run that ends well formed, returning what is allocated leaves the original range as one free node, and takedown's test passes |
| MmHistory.WholeIsTaken | drm_mm.c:150-180 | Getting the whole free range needs no memory and leaves one allocated node, of which drm_mm_clean holds |
| MmHistory.TakedownExact | drm_mm.c:552-564 | Takedown's test passes if and only if the last node is free and no other is |
| MmCases.TakedownWithBlock | drm_mm.c:552-564 | After one get from a new manager the test passes with a block allocated |
| MmHistory.PoolTurnsStale | drm_mm.c:252-263 | A put between two free neighbours retires a node with its free bit set, second in the pool |
| MmStale.StaleIsReached | drm_mm.c:51-74 | From a new manager, seven operations lead to a get that makes a block of a stale node and leaves the allocator broken |
| MmScan.AddKeepsShape | drm_mm.c:404-464 | Tentatively merging a block with its free neighbours keeps the tiling and all flags consistent |
| MmScan.RemoveUndoesAdd | drm_mm.c:481-528 | Removing the block added last restores order, starts, sizes, free bits and flags of all nodes |
| MmEvict.InitScanShape | drm_mm.c:387-395 | Starting a scan keeps the allocator invariant, stores the size and alignment asked for, and opens the scan with no hit |
| MmEvict.ScanUndo | drm_mm.c:404-528 | Adding any sequence of distinct allocated blocks and removing them in reverse restores the state, and removal returns 1 exactly for the blocks inside the recorded hit |
| MmEvict.AddAllOutcome | drm_mm.c:455-463 | Once reported, a hit stays on record and good whatever is added after it |
| MmEvict.EvictionMakesHole | drm_mm.c:455-527 | If an addition reported a hit, returning exactly the blocks whose removal returned 1, in any order, leaves one free node over the hit region, with room for the scanned size and alignment |
| MmEvict.EvictedIsFound | drm_mm.c:473-476 | After the eviction the node over the hit is the only one the search accepts, if and only if every hole that fitted before the scan lies in the hit |
| MmReclaim.ScanReports | drm_mm.c:387-464 | A scan for a size and alignment reports a hole if and only if some addition completes a run of free and scanned neighbours with an aligned place for just that size |
| MmReclaim.ScanReclaims | drm_mm.c:378-528 | A whole scan in the caller's terms: if an addition completed such a run, then after its removal in reverse and the evictions, in any order, a free node on the list has a place of that size and alignment; otherwise all is as before, and nothing is chosen but empty blocks at address 0 |
| MmCases.EvictedBelowTop | drm_mm.c:473-476 | A scan and eviction after which the freed block is second on the free stack, and still the only one the search accepts |
| MmCases.FourIsReached | drm_mm.c:150-284 | Four operations lead there from a new manager |
| MmEvict.NoHitNoEviction | drm_mm.c:387-527 | If no addition reported a hit, removal returns 1 for no block but an empty one at address 0 |
| MmCases.EmptyBlockIsEvicted | drm_mm.c:519-527 | A block of no units got from a new manager at 0 is such a block, for any scan that finds no hole |
| MmOrder.AnyOrder | drm_mm.c:466-528 | In any order, the blocks added can be removed if and only if each one that absorbed a block that had absorbed a neighbour itself goes before that block; then the state is restored and the verdicts are right |
| MmSameOrder.SameOrder | drm_mm.c:470-472 | Removal in the order of addition can be done, and then restores the state, if and only if no block was added beside two cells in a row that were free or scanned; it finds every block listed if and only if no two lie in one run of free or scanned cells |
| MmHistory.SameOrderLosesBlock | drm_mm.c:466-479 | A case where removal in the order of addition starts with a block that is no longer on the list, and has a neighbour to link in |
| DrmMm.Mm.constructor | drm_mm.c:539-549 | A new manager is one free node over its range |
| DrmMm.Mm.Kmalloc | drm_mm.c:51-74 | The node comes from memory, or from the pool with the fields it was retired with |
| DrmMm.Mm.PreGet | drm_mm.c:81-101 | The loop fills the pool up to four nodes while there is memory; an error if and only if it then has fewer than two |
| DrmMm.Mm.SplitAtStart | drm_mm.c:125-147 | The split in place is the split on states |
| DrmMm.Mm.PutBlock | drm_mm.c:226-284 | The put in place is the put on states |
| DrmMm.Mm.GetBlock | drm_mm.c:150-180 | The get in place is the get on states: the block has the size and alignment asked for and lies in the hole; NULL if and only if pool and memory have too few nodes |
| DrmMm.Mm.GetBlockRange | drm_mm.c:183-218 | The same for the range variant |
| DrmMm.Mm.SearchFree | drm_mm.c:309-338 | NULL if and only if no hole fits, or with best_match none of fewer than 2^64 - 1 units; otherwise a hole that fits, the first on the stack, or with best_match a smallest one |
| DrmMm.HugeHoleIsMissed | drm_mm.c:319-337 | On a new manager of 2^64 - 1 units the search for the best hole returns NULL, the one for the first does not |
| DrmMm.Mm.SearchFreeInRange | drm_mm.c:340-375 | The same within a range |
| DrmMm.Mm.InitScan | drm_mm.c:387-395 | A new scan is for the size and alignment asked for, keeps the nodes and forgets the last hit |
| DrmMm.Mm.ScanAddBlock | drm_mm.c:404-464 | The tentative merge in place is the one on states, with its report of a hit |
| DrmMm.Mm.ScanRemoveBlock | drm_mm.c:481-528 | Taking it back in place is the removal on states, with its verdict, for a block that is listed or has no neighbour to link in |
| DrmMm.Mm.Clean | drm_mm.c:531-536 | True if and only if one free node covers the whole range or one block takes it; true with something allocated in the second case only |
| DrmMm.Mm.Takedown | drm_mm.c:552-579 | Passes its test if and only if the free stack has one node and that is the last on the list |
| HwLockWord.TakeIsExact | drm_lock.c:196-231 | For a plain context the take succeeds if and only if the word is not held, and a failure only sets the contended flag |
| HwLockWord.TakeNeedsPlain | drm_lock.c:203-229 | On a free word the take reports success if and only if the context is plain, and leaves the word held in any case |
| HwLockWord.FreeIsExact | drm_lock.c:246-299 | Freeing keeps the context and clears both flags; the transfer's word is held by context 0 |
| HwLock.StepKeepsInv | drm_lock.c:51-382 | Every step of every thread keeps the protocol's invariant |
| HwLock.LockIsExclusive | drm_lock.c:196-382 | After any schedule: at most one owner, the word held by its context; the idlelock's flag means the word is held by context 0 and, between spinlock regions, kernel_waiters > 0; user_waiters and kernel_waiters are the numbers of threads on either side; a word held by context 0 without the flag has exactly one thread between its take and setting it; a refused take, of a client or of the kernel, leaves the contended flag set while the holder it met keeps the lock |
| HwLock.TakeAnnounces | drm_lock.c:196-231 | In any reachable state a take that meets a free word leaves it contended if and only if another thread counts as user or kernel, and so it stays until that ownership ends, whatever happens; with a stranded kernel user it always is |
| HwLock.RefusalAnnounces | drm_lock.c:203-231 | A refused take announces itself to the owner, until that ownership ends, and its caller stays counted |
| HwLock.KernelKeepsLock | drm_lock.c:346-382 | Once the idlelock has the lock no client gets it while any one kernel user stays inside, however many others come and go |
| HwLockAlone.TakeAlone | drm_lock.c:68-107 | A client that tries for the lock undisturbed has it after three steps if it is free, and else is refused, has announced itself, and may try again |
| HwLockAlone.UnlockAlone | drm_lock.c:246-299 | An owner that unlocks undisturbed is out after three steps, with the lock free, or the idlelock's if the kernel waits |
| HwLockAlone.KernelTakeAlone | drm_lock.c:346-362 | A kernel user that goes for the idlelock undisturbed is inside: at once if it has the lock, and else with the lock if and only if that was free |
| HwLockAlone.KernelLeaveAlone | drm_lock.c:365-382 | The last kernel user out frees the lock if the idlelock has it; any other leaves it as it is |
| HwLockAlone.SpinEnds | drm_lock.c:196-382 | In any reachable state, who has the spinlock gives it back within three steps of its own |
| HwLock.UnlockDecides | drm_lock.c:272-299 | Whatever other threads do during an unlock, it ends with the idlelock holding the lock if and only if it saw kernel_waiters; otherwise the lock is free, and the kernel users then left without it are exactly those refused since that look and not gone again |
| HwLock.HandoverCanBeMissed | drm_lock.c:272-362 | A schedule after which the kernel waits for a lock that nobody holds and nobody will hand over |
| HashTab.BucketInsert | drm_hashtab.c:137-171 | Inserting where the walk stops keeps a bucket strictly sorted and exact |
| HashTab.BucketRemove | drm_hashtab.c:217-236 | So does taking an item out |
| HashTab.OpenHash.KeysAreUnique | drm_hashtab.c:137-171 | No two items have the same key: the table is a finite map |
| HashTab.OpenHash.Walk | drm_hashtab.c:87-110 | The walk that stops early finds the key if and only if it is in the table, and otherwise the place it belongs |
| HashTab.OpenHash.FindKey | drm_hashtab.c:87-135 | An item with that key, or none if and only if there is none |
| HashTab.OpenHash.InsertItem | drm_hashtab.c:137-171 | Succeeds if and only if the key was absent; then exactly that item is added, and fill grows with it |
| HashTab.OpenHash.RemoveKey | drm_hashtab.c:217-228 | Succeeds if and only if the key was present; then exactly its item is gone |
| HashTab.OpenHash.RemoveItem | drm_hashtab.c:230-236 | Exactly that item is gone, and fill shrinks with it |
| HashTab.OpenHash.JustInsertPlease | drm_hashtab.c:178-200 | Ends within 2^bits probes: under the first candidate key not taken, or with failure if and only if all are |
| HashTab.AllRound | drm_hashtab.c:186-196 | 2^bits collisions in a row have tried every candidate |
| MapHandle.Handle | drm_bufs.c:87-133 | A plain token whose page number is free gets exactly that as its key; any other gets the first hashed handle, counting on from the hash, that is free, with the low SHMLBA bits of the token; it fails if and only if neither is to be had |
| MapHandle.ColorKept | drm_bufs.c:114-132 | Every candidate handle keeps those bits |
| HashRcu.OpKeepsOrdered | drm_hashtab.c:137-236 | Every write keeps keys rising along all links, those of removed nodes included |
| HashRcu.OpKeepsAllLead | drm_hashtab.c:137-236 | From every node with a smaller key, removed or not, the links go on leading to a key that stays |
| HashRcu.PresentIsFound | drm_hashtab.c:112-135 | A reader never misses a key that is present throughout its walk, whatever one writer does, and has found it after at most key + 2 reads |
| HashRcu.AbsentIsNotFound | drm_hashtab.c:112-135 | It never reports a key that is absent throughout, and has given up after as many reads |
| HashRcu.OpChangesContents | drm_hashtab.c:137-236 | An insertion adds its key, which was not there, a removal takes its key away; every node on the list can be reached from the head, and walks that start afterwards find a list with just these keys |
| HashRcu.AloneFinds | drm_hashtab.c:112-135 | A reader that is left alone finds a key if and only if it is there |
| VblankPipe.MissedIsExact | drm_irq.c:812-815 | The frames added after a time without interrupts are those that passed, if and only if the register did not wrap or max_vblank_count is its modulus |
| VblankPipe.StepStaysInStep | drm_irq.c:104-190 | Each vblank, interrupt, get, put and timer keeps the software count at a constant distance from the true total, for drivers with precise timestamps and without |
| VblankPipe.CountStaysExact | drm_irq.c:789-889 | For a counter of up to 32 bits, over any run, with late, repeated and spurious interrupts, no frame is lost or counted twice, and the timestamp is that of the frame counted; without precise timestamps, if no interrupt is spurious |
| VblankPipe.TickStep | drm_irq.c:172-190 | After the timer a pipe is on if and only if it was and is referenced; one that is turned off has the count of the last frame begun, the register in last_vblank, and no timestamps |
| VblankPipe.OffUntilGet | drm_irq.c:172-190 | Over runs: once the last reference is dropped and the timer has fired the interrupt is off until the next get, and nothing about the pipe changes |
| VblankPipe.GetGives | drm_irq.c:848-889 | A get succeeds if and only if the interrupt is on, or there is no reference yet and it can be enabled; one that enables it stores the timestamp of the new count only |
| VblankPipe.ModesetHoldsOne | drm_irq.c:932-966 | A mode set holds exactly one reference, if the interrupt was on or could be enabled, however often it is announced; its end gives that back, once |
| VblankCrtc.Crtc.Sample | drm_irq.c:136-139 | The retry loop returns the first sample whose counter read the same before and after |
| VblankCrtc.Crtc.HandleVblank | drm_irq.c:1217-1253 | The interrupt's update of count and timestamp in place |
| VblankCrtc.Crtc.DisableAndSave | drm_irq.c:104-170 | Disabling in place, with the missed interrupt made up for |
| VblankCrtc.Crtc.DisableFn | drm_irq.c:172-190 | The timer in place: it turns an unreferenced pipe off and leaves a referenced one alone |
| VblankCrtc.Crtc.UpdateCount | drm_irq.c:789-835 | The 32-bit wrap arithmetic in place |
| VblankCrtc.Crtc.VblankGet | drm_irq.c:848-889 | Taking a reference, enabling on the first, giving it back if that fails |
| VblankCrtc.Crtc.VblankPut | drm_irq.c:900-909 | Dropping a reference arms the timer if and only if it was the last |
| VblankCrtc.Crtc.PreModesetCall | drm_irq.c:932-949 | One reference is held across a mode set, however often this is called |
| VblankCrtc.Crtc.PostModesetCall | drm_irq.c:952-966 | And dropped once |
| VblankRing.StepKeeps | drm_irq.c:1228-1253 | Every word stored or loaded keeps the ring committed and the reader's words sound |
| VblankRing.ReadIsCommitted | drm_irq.c:753-770 | A reader returns one commit's count with that commit's time, never torn or mixed, and never of a vblank before the last one when it set out, if fewer than 2^32 vblanks pass |
| VblankRing.TimesAreCommitted | drm_irq.c:1228-1253 | Every timestamp the handler takes is committed once, in order, or still under way |
| VblankRing.QuietReadEnds | drm_irq.c:753-770 | A read that no commit disturbs ends after four accesses, with the last vblank |
| VblankEvents.DueIsExact | drm_irq.c:1044-1060 | The wrapping comparison with the window of 2^23 is the unbounded one within its reach |
| VblankEvents.SweepWalk | drm_irq.c:1162-1191 | The list walk takes out exactly the due requests of the pipe, in order |
| VblankEvents.StepKeepsInv | drm_irq.c:848-1191 | Every step of open, wait, request, interrupt, sweep, read, release, modeset and timer keeps references, space, deliveries and due dates accounted for |
| VblankEvents.ReferencesCovered | drm_irq.c:848-966 | Over every run a pipe's count is its pending events, waiters and modeset hold, plus its failed requests, and equals them if and only if none failed; referenced pipes have their interrupt on; the timer passes over pipes with a pending event or a failed request, for good |
| VblankEvents.FailureLeaves | drm_irq.c:1021-1039 | One failed request leaves a pipe with a reference nobody has, and its interrupt on |
| VblankEvents.LeaksAreFailures | drm_irq.c:1021-1039 | Over every run the references left behind on a pipe are as many as the requests for events on it that failed |
| VblankEvents.FrameOfIs | drm_irq.c:1044-1060 | A target stands for one frame of the unwrapped count, at most 2^23 back or else ahead |
| VblankEvents.DeliveredOnceInTime | drm_irq.c:1033-1064 | Over every run no event is delivered twice; one that was queued is delivered at exactly its frame, counted without wrap; a pending one's frame is still to come or being handled; and no accepted request is lost |
| VblankEvents.RequestIsFor | drm_irq.c:1012-1064 | A request that is accepted adds one pending event, or one delivery if its frame is reached, for the very frame it asks for, or the next one if that is missed and the caller wants so |
| VblankEvents.RequestIsAnswered | drm_irq.c:1012-1191 | Over whole runs, while its file is open: a request for the frame k frames on is delivered at exactly that frame, counted without wrap, with that count; one for a past frame at once or at the next frame; its id is on exactly one event |
| VblankEvents.TickTurnsOff | drm_irq.c:172-190 | Once a mode set has allowed it, the timer leaves a pipe on if and only if it is referenced |
| VblankEvents.AllowedStays | drm_irq.c:172-190 | Over every run, whether the timer may turn pipes off changes at the end of a mode set only |
| VblankEvents.ModesetAllows | drm_irq.c:952-966 | The end of a mode set allows it, for good |
| VblankEvents.TimerEndsIt | drm_irq.c:172-190 | And an unreferenced one then stays off over every run until somebody asks for a reference |
| VblankEvents.UnreadAreLast | drm_fops.c:582-609 | Over every run, what a file has not read are the last events delivered to it, in order |
| VblankEvents.ReadTakesOldest | drm_fops.c:611-637 | A read takes the oldest events, as many as there are or fit whole into the buffer, and gives their space back |
| VblankEvents.DueIsFirst | drm_irq.c:1162-1168 | That frame is the first one from then on whose count is the target |
| VblankEvents.SpaceIsConserved | drm_fops.c:582-637 | A file's free space and the size of its queued and pending events are 4096 bytes together, always |
| Masters.OpenKeepsCounts | drm_fops.c:267-305 | Opening keeps every master's count exact |
| Masters.DropKeeps | drm_stub.c:254-275 | Dropping the master keeps the invariant, and never frees the master the file still names |
| Masters.SetKeeps | drm_stub.c:220-252 | Becoming master keeps the invariant, whatever the driver says |
| Masters.GetMagicKeeps | drm_auth.c:143-167 | A new magic entry points to an open file of that master |
| Masters.TriesAreFew | drm_auth.c:153-160 | The search for a magic goes through distinct values |
| Masters.MagicsAreFew | drm_auth.c:75-94 | A master knows no more magic than there are open files, so the search ends |
| Masters.AuthMagicKeeps | drm_auth.c:182-195 | Authenticating keeps the invariant |
| Masters.ReleasedIs | drm_fops.c:479-545 | A release drops one reference, or two if the file rules its minor, and the magic entry; the master goes if and only if none is left |
| Masters.ReleaseKeepsCounts | drm_fops.c:512-545 | A release keeps counts exact, and frees a master only with the last file that names it, while it is not current |
| Masters.ReleaseRevokes | drm_fops.c:512-522 | Another file loses its authentication if and only if the released one was master with the same master |
| Masters.StepKeepsInv | drm_fops.c:267-545 | Every operation keeps the invariant |
| Masters.RunKeepsInv | drm_stub.c:154-275 | Over every run: a master's count is the open files naming it plus one while it is current; at most one master file per minor, whose master is the minor's; every magic entry points to an open file; with no file open no master is left |
| Handshake.OpenJoins | drm_fops.c:267-305 | A file opened on a primary node joins its minor's master, and is master itself if and only if it brought that; the open fails if and only if there is none and none can be made |
| Handshake.SetAndDrop | drm_stub.c:220-275 | When a file becomes master and when it can give that up; each undoes the other exactly |
| Handshake.AuthMagicReaches | drm_auth.c:182-195 | A successful call authenticates the file that holds the magic under the caller's master, and no other, and uses that entry up, and no other |
| Handshake.AuthenticatedIs | drm_fops.c:251-555 | Over every run, an open file is authenticated if and only if it was opened for root, brought its master, or had its magic passed by a file of its master, and no other master file of that master has been released since |
| Handshake.HandshakeWorks | drm_auth.c:143-195 | A magic that was given out authenticates its file when a file of its master passes it, whatever happens in between, unless it was passed or a file with it released before |
| Handshake.MagicsDiffer | drm_auth.c:153-160 | No magic is given out twice until the sequence has gone through all its 2^32 - 1 values |
| Masters.Device.constructor | drm_stub.c:154-170 | Before any file is open the invariant holds, with no master |
| Masters.Device.MasterPut | drm_stub.c:214-218 | The last reference frees the master |
| Masters.Device.OpenHelper | drm_fops.c:267-305 | Opening in place, with both references given back if the driver refuses |
| Masters.Device.SetMasterIoctl | drm_stub.c:220-252 | Becoming master in place; 0 in every case |
| Masters.Device.DropMasterIoctl | drm_stub.c:254-275 | Dropping it in place, and when it is refused |
| Masters.Device.GetMagicIoctl | drm_auth.c:143-167 | The file's magic, or the first value from the sequence on that its master does not know |
| Masters.Device.FindUnknown | drm_auth.c:153-160 | The loop ends at that value |
| Masters.Device.AuthMagicIoctl | drm_auth.c:182-195 | Succeeds if and only if the master knows the magic; the file of that magic is authenticated in place |
| Masters.Device.ReleaseFile | drm_fops.c:476-555 | The release in place |
| Masters.Device.Revoke | drm_fops.c:516-522 | The walk over the file list |
| Edid.RepairedIsClean | drm_edid.c:140-156 | Repair is idempotent: a block that is accepted is accepted again once repaired, unchanged, and has the whole header if and only if it started with 0 |
| Edid.BlockValid | drm_edid.c:134-192 | On a buffer: accepted if and only if header, checksum and version allow it; only the header's bytes may change |
| Edid.IsValid | drm_edid.c:200-213 | Says yes if and only if every block is accepted; on a record of clean blocks it changes nothing |
| Edid.Checksum | drm_edid.c:158-159 | The 8-bit sum of a block |
| Edid.LoweredIsClean | drm_edid.c:321-324 | Lowering the extension count and raising the checksum byte keeps the checksum modulo 256 and the block accepted |
| Edid.AssembledIsValid | drm_edid.c:272-330 | For arbitrary bytes from the bus, a record that is returned has the length its count says, and is accepted without a byte changing |
| Edid.ReturnedIsEdid | drm_edid.c:140-183 | It has an EDID's header, version and checksum if and only if it starts with 0 |
| Edid.TaggedIsReturned | drm_edid.c:140-183 | A block that starts with 2 and has a bad checksum is returned as an EDID |
| Edid.Collect | drm_edid.c:303-319 | The loop keeps exactly the accepted extension blocks, in order, or fails with the bus |
| Edid.GetEdid | drm_edid.c:272-339 | The buffer that is returned is that record, or NULL, and when the counter of null EDIDs grows |
| Edid.ZeroIsRefused | drm_edid.c:261-290 | A block of zeros is refused, so the first try tells an absent EDID from a broken one |
| EdidRecord.AcceptedIs | drm_edid.c:134-192 | Which blocks are accepted: one that starts with 0 if at most two header bytes are wrong and it has checksum and version once repaired; one that starts with 2 always; any other with its checksum |
| EdidRecord.DamageIsRepaired | drm_edid.c:140-156 | A clean base block that comes with up to two of its other header bytes damaged is accepted, and repaired to what was sent |
| EdidRecord.ByteErrorIsSeen | drm_edid.c:158-166 | One wrong byte, wherever it is, breaks the checksum |
| EdidRecord.FetchedIs | drm_edid.c:281-314 | A block comes to the first acceptable of four tries; a transfer that fails before breaks everything off |
| EdidRecord.BaseIs | drm_edid.c:281-294 | There is a base block if and only if one of four tries is acceptable before a transfer fails and the first did not bring zeros; it is that try, repaired |
| EdidRecord.RecordIs | drm_edid.c:272-330 | A record is returned if and only if the base block is good, no transfer fails and memory suffices; it is the base block, with count and checksum byte adjusted, and then exactly the accepted extension blocks, in order |
| Surface.GetDesc | svga3d_surfacedefs.h:219-734 | Every format of the table takes as many bytes in a row as in a block, but for the planar ones |
| Surface.BlockHoldsPixels | svga3d_surfacedefs.h:219-734 | A block has room for the bits of its pixels and no more, for every kind of format; a planar row has a byte for each pixel; a format that is not in the table takes no room |
| Surface.HalvedIsDivided | svga3d_surfacedefs.h:753-762 | A mip level's side is the base level's over a power of two, rounded down |
| Surface.MipSides | svga3d_surfacedefs.h:753-762 | All three sides of a level are the base level's over a power of two, but at least 1 |
| Surface.BlocksCover | svga3d_surfacedefs.h:764-775 | Rounding up gives the fewest blocks that cover a side |
| Surface.PitchCovers | svga3d_surfacedefs.h:783-796 | A planar pitch is the width up to an even number, another the bytes of a row of blocks |
| Surface.BufferSizeIs | svga3d_surfacedefs.h:819-844 | The chain of clamped products is the clamped product |
| Surface.SizeIsExact | svga3d_surfacedefs.h:800-844 | The buffer size is the true size or the largest u32, if and only if the image is empty, or rounding and pitch fit, or what is left of the pitch is still too large |
| Surface.WideImageTakesNoRoom | svga3d_surfacedefs.h:783-796 | An image of 4 GB that is said to take no room |
| Surface.GetSerializedSize | svga3d_surfacedefs.h:846-867 | The loop adds up the images of all mip levels and faces, in 32 bits |
| Surface.GetImageOffset | svga3d_surfacedefs.h:894-925 | The loop's offset is the chain of the faces and levels before, in 32 bits |
| Surface.ImageInside | svga3d_surfacedefs.h:894-925 | When nothing wraps, an image starts where those before it end |
| Surface.ImagesDisjoint | svga3d_surfacedefs.h:846-925 | And distinct images are disjoint and inside the serialized size |
| Surface.ImagesTile | svga3d_surfacedefs.h:846-925 | And they leave no gap: the first starts at 0, each next one where the last one ends, over levels and faces, and the last one ends at the serialized size |
| Surface.PastLastLevel | svga3d_surfacedefs.h:906-918 | A level the surface does not have is placed at the end of its face |
| Surface.IndexUnique | svga3d_surfacedefs.h:877-891 | Distinct blocks have distinct places in an image |
| Surface.PixelInside | svga3d_surfacedefs.h:877-891 | A pixel's block lies inside its image, planar and compressed formats included |
| Surface.NextInRow | svga3d_surfacedefs.h:877-891 | Blocks of a row are next to each other, from the first at 0 on |
| Surface.NextRow | svga3d_surfacedefs.h:877-891 | The next row of blocks is one row of blocks further |
| Surface.NextSlice | svga3d_surfacedefs.h:877-891 | The next slice is as many rows further as a slice has |
| Surface.PixelsDisjoint | svga3d_surfacedefs.h:877-891 | Two pixels share a block or have disjoint ones |
| Surface.TexelsDisjoint | svga3d_surfacedefs.h:846-925 | Across a whole surface, pixels of different faces, levels or blocks have no byte in common |
| ModeLine.GrammarParses | drm_modes.c:984-1143 | Every line of the documented grammar parses to exactly its fields |
| ModeAccepts.ParseIs | drm_modes.c:1019-1143 | For every string, in the grammar or not: it is accepted if and only if each character may stand where it does with what is to its right, numbers follow their signs, and leading digits have an x; then it stands for the numbers behind its signs, the letters that are in it, and the width it begins with, or for no resolution if it has no x |
| ModeLine.ResolutionIsThere | drm_modes.c:1095-1104 | Every accepted resolution is the digits on both sides of an x; the width may be missing; the branch for a width that does not reach the x is dead |
| ModeLine.HeightAlone | drm_modes.c:1095-1104 | x480 is the resolution 0x480 |
| ModeLine.NameRoundTrip | drm_modes.c:521-528 | The name of a mode parses back to its width, height and interlace flag |
| ModeLine.NumberIs | drm_modes.c:1026-1047 | What is read behind a sign is the number its digits write, modulo 2^32 |
| ModeLine.Printed | drm_modes.c:525-527 | The decimal digits of a number read back as that number |
| ModeLine.ParseCommandLine | drm_modes.c:1019-1143 | The loop from the right computes that parse |
| Cvt.VSyncTells | drm_modes.c:157-168 | Which aspect ratio each sync width stands for, and which ratios go unseen |
| Cvt.Budget | drm_modes.c:182-199 | A period that leaves out the sync time, and the lines that make it up again, fill the second up to a line of each kind |
| Cvt.FieldTime | drm_modes.c:182-200 | For every rate, progressive or interlaced, the fields of a second miss it by less than their lines in ns below; unless the porch is clamped, by at most their last lines above, if and only if the rate is at most 1818 and its product with the lines stays within 32 bits |
| Cvt.FrameTime | drm_modes.c:182-200 | The same for the lines of a progressive mode, at the rate asked for or 60: 10^9 - (vdisplay + 3) * rate < vtotal * hperiod * rate, and at most 10^9 + hperiod * rate under that condition alone |
| Cvt.ReducedFieldTime | drm_modes.c:243-254 | The same under reduced blanking, for rates up to 2173 |
| CvtParts.InterlacedFrameTime | drm_modes.c:116-124 | The same for whole frames of an interlaced mode, which has two fields for each frame asked for |
| CvtParts.ReducedFrameTime | drm_modes.c:243-254 | The same for progressive frames with reduced blanking |
| CvtParts.WidthIs | drm_modes.c:126-136 | Width and borders are in whole cells; a border is the most cells within 1.8% |
| CvtParts.HeightIs | drm_modes.c:138-149 | The lines of a field, and borders of the most lines within 1.8% of them |
| CvtParts.StandardTells | drm_modes.c:204-234 | The fields of a mode without reduced blanking: half of the blanking behind the sync, that 8% wide; the vertical sync three lines below the picture, as wide as the aspect ratio says; an even total when interlaced; a clock that paces the lines exactly if they have at most 4294 pixels |
| CvtParts.StandardPorchTells | drm_modes.c:190-200 | Sync and back porch are the fewest lines that take 550 us and leave three for the porch |
| CvtParts.ReducedTells | drm_modes.c:243-266 | With reduced blanking: 160 pixels of it, a sync of 32 that ends in their middle, the same vertical sync, the fewest blank lines that take 460 us and have room for both porches, and the same clock |
| CvtParts.ClockPaces | drm_modes.c:264-266 | The clock is the fastest, in steps of 250 kHz, at which a line takes its period, if and only if the line has at most 4294 pixels |
| CvtParts.DutyFalls | drm_modes.c:212-216 | The duty cycle is 30% less 300% of the period in ms, rounded up, and at least 20% |
| Cvt.FastModeTakesTooLong | drm_modes.c:182-190 | 640x480 at 2000 Hz takes more than three seconds of each second |
| Cvt.FastReducedModeTakesTooLong | drm_modes.c:243-254 | And at 2200 Hz with reduced blanking more than five |
| Cvt.BlankIsWide | drm_modes.c:211-220 | The blanking is at least a quarter of the active line, but for rounding |
| Cvt.BlankShare | drm_modes.c:213-220 | The blanking is the largest multiple of 16 pixels whose share of the line is within the duty cycle |
| Cvt.SyncWidth | drm_modes.c:223-227 | The sync takes 8% of the line, less what rounds its start to a cell |
| Cvt.StandardOrder | drm_modes.c:221-231 | For all sizes: vertically display, sync start, sync end and total are in order; horizontally they are if and only if the blanking computed for the width fits its line |
| Cvt.StandardParts | drm_modes.c:182-220 | There is a mode only if its period and blanking can be computed |
| Cvt.WideModeIsOrdered | drm_modes.c:211-231 | From 320 pixels on, for periods up to 100 us and while the blanking product stays within 32 bits, a mode is made and all its parts are in order |
| Cvt.WideModeLosesBlanking | drm_modes.c:217-220 | 214752x240 at 60 Hz is left without blanking, and its sync is out of place |
| Cvt.ReducedIsOrdered | drm_modes.c:254-262 | So they are under reduced blanking, for every size |
| Cvt.ClockIsExact | drm_modes.c:264-266 | The clock is what the line calls for if and only if the line has at most 4294 pixels |
| Cvt.WideModeLosesClock | drm_modes.c:264-266 | 4096x2160 at 60 Hz gets 183.5 MHz where 760 MHz are called for |

## Left out

- The atomic variants and the debug tables of the range allocator: they add no state of their own.
- The truncation of `wasted` and `scan_hit_size` to 32 bits (drm_mm.c:192, drm_mm.h:68): addresses and sizes are mathematical integers.
- MmHistory.RunKeepsValid: a run ends with the first get that makes a block of a stale node; what later calls make of the broken list is not modelled.
- Removing a block that another one covers, which `MmOrder.AnyOrder` tells how to avoid: it would follow the links of a list entry that was deleted, and is undefined.
- Linked lists: `node_list`, `free_stack`, hash buckets and event lists are sequences; the links a node on the scan list keeps its neighbours in are modelled as fields of the node.
- The notifier of the lock (drm_lock.c:313-331) is modelled as setting the contended flag at any time; what it does for signals, and the fast path of user space, are not modelled.
- HwLock.UnlockDecides: says which kernel users are passed over, and not how soon a later release makes up for it.
- Fairness of waiting in `drm_lock` and `drm_wait_vblank`: sleeping and waking are not modelled, only what holds at every step and what a thread comes to that is left alone.
- `drm_vblank_off` and `drm_irq_uninstall` (drm_irq.c:911-920): they disable without looking at the references, so accounting and reference invariants do not hold across them.
- Page flips: their failure path credits event space that was not charged (drm_crtc.c:2784-2790).
- VblankPipe.CountStaysExact: assumes vblanks more than 1 ms apart, interrupts handled before the next vblank, and less than a turn of the counter between disabling and enabling; without precise timestamps also that no interrupt is spurious and that the timer does not come before the last one is handled.
- Failure of `driver->open` (drm_fops.c:261-264): it unlocks a mutex that is not locked.
- Masters.GetMagicKeeps: a magic value can come up again once the sequence has wrapped; then a file that authenticated long ago takes the entry of another when it is released.
- Masters.Device.GetMagicIoctl: its caller has a master and fewer than 2^32 - 1 files are open; a file without one cannot get here through the ioctl flags.
- `drm_addmap_core` after a failed handle (drm_bufs.c:337-343), the buffer pools and `drm_order`: the first frees an entry that stays linked, the rest would only add easy members.
- ModeLine.ParseCommandLine: a missing option string and the fallback to the frame buffer's are not modelled; simple_strtol is not part of the repository and is modelled as reading decimal digits.
- ModeLine.GrammarParses: the parser also accepts lines the grammar does not have, such as options in another order; ModeAccepts.ParseIs is what holds of all of them.
- Cvt.WideModeIsOrdered: for periods up to 100 microseconds; Cvt.StandardOrder is exact for all.
- Cvt.FieldTime: has no upper bound for modes whose porch is clamped to its minimum, which are meant to take longer.
- The sync polarity flags of a mode (drm_modes.c:274-279): constants of the two branches.
- GTF timings, the DMT and EDID mode tables, mode lists, and the rest of EDID parsing: near repeats or tables.
- sysfs, procfs, debugfs, ioctl dispatch, user copies, PCI, AGP, MTRR, page faults and cache flushing: plumbing and foreign calls.
