# Helios: a verified model

Helios is a kernel for WebAssembly components. This project models the parts of
it that carry the most state or the most arithmetic, and proves what they
promise. Everything is Dafny; `dafny verify dfyconfig.toml` checks it.

## What is modelled

**The AArch64 user address space.** `PageWalk` and `PageTable` are the
four-level translation tree: a heap of 512-entry tables, updated in place, that
behaves like a flat map from page number to descriptor. `Descriptors` is the
64-bit encoding of the leaves. `Machine` is one value for leaves, frames, bytes
and every translation a TLB may still hold, with the elementary steps and what
each keeps; a flag records whether a frame was ever given back while a
translation to it survived. `Runs`, `DemandRuns` and `DeviceRuns` are the facts
about the multi-page loops, `Mmu` the loops themselves with their 128-entry
batches and rollbacks. `Regions` and `Tracker` are the reservation tracker with
its real region and entry lists. `Books` ties the tracker's maps, the device
list and the swap-token ledger to the machine, `Outcomes` says what an operation
promises, and `AddressSpace` has the operations under one invariant,
`Valid()`: frames partition the pool, no frame is mapped twice, nothing stale
and nothing given back too early, leaf tokens equal recorded tokens, every
committed page mapped as its flags say, the device list exact, the token ledger
balanced, the address window accounted for. Every operation keeps it whether it
succeeds or fails, or says in its contract exactly when it does not. `Histories`
runs any sequence of calls, each behind a check its caller could make on the
code's own data, and `Failures` has short runs from a fresh address space that
end in the address-space failures below.

**The critical section.** `CriticalSection` is a transition system over any
number of processors in which each atomic access, interrupt, interrupt return
and identity switch is a step.

**Parking and waking.** `ParkWake` is the idle handshake of the executor
together with the wake flag, the wake interrupt and `wfi`, for one parking
processor and any number of others.

**The boot image.** `Wire`, `Bootfs` and `BootfsWriter` are the
`helios-bootfs` format, its parser and its writer, byte for byte. `Format` says
what an image is in terms of bytes at offsets, apart from the parser.

**Arithmetic.** `Calendar`, `Timebase`, `BootMemory`, `Dma`, `Blocks` and
`Zeroing` are the civil calendar, tick conversion, boot memory segmentation, DMA
windows, block iteration and block zeroing. `Arithmetic` and `Options` are
shared.

## Where the code falls short of the promise

Each of these is a lemma or a contract with the exact condition.

- Ending a demand-commit region gives frames back under live translations
  exactly when some batch of 128 mapped pages has a gap, because skipped pages
  do not restart the batch (`EndDemandCommit`, `DemandFlush`,
  `Failures.SkippedPage`).
- Preparing a demand-commit range orphans the swap tokens in it without clearing
  their descriptors, so page table and record disagree exactly when the range
  held a swapped page or a device page (`PrepareDemandCommit`, `AgreeDemand`,
  `Failures.StrandedDescriptor`, `Failures.PreparedDevice`).
- Making a range accessible over a swapped page throws its contents away
  (`EnsureAccessibleSubranges`, `Failures.ContentsLost`).
- A fault-time commit is documented to refuse every page outside a prepared
  range; the code refuses only pages without a leaf table, and it overwrites the
  descriptor of a swapped page (`CommitDemandPage`,
  `Failures.UnpreparedAccepted`, `Failures.SwapOverwritten`).
- Dropping a pinned run while a second view maps it leaves live translations to
  free frames, exactly then (`DropNeedsNoViews`, `UnmapDevice`, `Release`,
  `Failures.ViewOutlivesRun`, `Failures.ReleaseUnderView`).
- Four calls can leave a mapped page that no record grants, each under an exact
  condition on the state before it (`Histories.Step`): a decommit and a
  sub-range decommit that stop at a hole, an end that names too few pages, a
  fault-time commit of a page not granted (`Failures.DecommitBehindHole`,
  `Failures.SubrangesBehindHole`, `Failures.EndTooNarrow`,
  `Failures.UnpreparedAccepted`).
- A task queued by the parking processor's own interrupt handler between its
  last look at the queue and the mask can be slept on exactly when no wake was
  under way (`WindowIff`, `WindowLoses`).
- A reserved boot range with its ends swapped hands out memory twice
  (`PiecesApartIff`).
- Two DMA windows with equal offsets let a range over the gap between them
  through (`DistinctOffsetsNeeded`, `GapAccepted`).

## Choices

- Virtual addresses are the low 48 bits of the upper half, as page numbers; the
  user window is root slots 384 to 447. Frames are frame numbers.
- The frame allocator may refuse any call. `PoolLog` counts its refusals, so that
  an operation's contract can say that it failed because the pool did, and that
  it succeeds when the pool refuses nothing. Table frames are fresh, zeroed and
  never given back.
- Calls on the address space are one after the other.
- `requires` on device operations are what their callers owe: the range lies in
  a reservation and holds no committed or swapped page, register frames are not
  the pool's, a shared range names pinned frames.
- The clock, the allocator's choice of frame, the DMA placement's answer and
  interrupt arrival are parameters or free choices.
- Atomics are sequentially consistent.

## Model

| member | source | states |
|---|---|---|
| `PageWalk.WalkPlace` | aarch64/src/vmm.rs:224-242 | A walk through live tables ends at the table frame whose recorded place is the page's prefix, so no two prefixes share a table. |
| `PageWalk.WindowExact` | aarch64/src/vmm.rs:105-106 | The user pages are exactly those under the 64 root slots from slot 384 on; those slots are the model's part of the root table, and all slots of every table below. |
| `PageWalk.LeafStoreAt` | aarch64/src/vmm.rs:501-525 | Storing one leaf slot changes what the walk of that page reads and what no other page's walk reads. |
| `PageWalk.HangWalk` | aarch64/src/vmm.rs:440-465 | Hanging a fresh zeroed table under an empty slot gives exactly the 512 pages below it an empty leaf and leaves every other walk alone. |
| `PageTables.RefinesIsBlockClosed` | aarch64/src/vmm.rs:440-465 | If one page has a leaf table, so do all pages of its 2 MiB block. |
| `PageTables.LeafStoreRefines` | aarch64/src/vmm.rs:501-655 | The radix tree after a leaf store still refines the flat map, updated at that page only. |
| `PageTables.HangRefines` | aarch64/src/vmm.rs:440-465 | The radix tree after hanging a table refines the flat map extended by the block, or the same map above level 2. |
| `PageTables.PageTable.constructor` | aarch64/src/vmm.rs:167-181 | An empty user half refines the empty map; the kernel half of the root is what it was. |
| `PageTables.PageTable.EnsureTable` | aarch64/src/vmm.rs:440-465 | The child table exists afterwards and the flat map grew by one block of empty leaves at the last level, by nothing above it. |
| `PageTables.PageTable.EnsureLeafTable` | aarch64/src/vmm.rs:467-474 | Every page of the block is walkable afterwards; nothing reads differently. |
| `PageTables.PageTable.LeafPtr` | aarch64/src/vmm.rs:224-242 | The walk finds a leaf exactly for the pages of the flat map, and reads what the map says. |
| `PageTables.PageTable.StoreLeaf` | aarch64/src/vmm.rs:501-655 | A store into the slot the walk found is an update of the flat map at one page. |
| `PageTables.PageTable.Map4kNoFlush` | aarch64/src/vmm.rs:501-525 | Refuses a valid page with Overlap, otherwise sets exactly that page of the flat map. |
| `PageTables.PageTable.Unmap4kNoFlush` | aarch64/src/vmm.rs:535-565 | Returns and clears exactly that valid page, or reports NotCommitted and changes nothing. |
| `PageTables.PageTable.Protect4kNoFlush` | aarch64/src/vmm.rs:567-599 | Rewrites the attributes of exactly that valid page, keeping its frame. |
| `PageTables.PageTable.Replace4k` | aarch64/src/vmm.rs:625-655 | Replaces exactly that valid page's descriptor and returns the old one. |
| `PageTables.PageTable.Translate4k` | aarch64/src/vmm.rs:601-623 | Reads the flat map, valid pages only. |
| `Descriptors.DecodeEncode` | aarch64/src/vmm.rs:69-100 | Page, swap and empty words decode to what they were encoded from, for every nonzero token and every output address; only swap words yield a token. |
| `Descriptors.ProtectWord` | aarch64/src/vmm.rs:567-599 | The word written by a protect is the encoding of the same frame with the new attributes. |
| `Descriptors.RelocateWord` | aarch64/src/vmm.rs:1407-1421 | The word written by a relocation is the encoding of the new frame with the old attributes. |
| `Descriptors.StoreReads` | aarch64/src/vmm.rs:501-655 | Every word the code stores into a leaf slot reads as the descriptor the page table's operation stores there. |
| `Descriptors.ValidIsPage` | aarch64/src/vmm.rs:501-655 | The valid bit is set exactly in the words that read as pages. |
| `Descriptors.FlagWordBits` | aarch64/src/vmm.rs:1428-1442 | Bit by bit, the word of an ordinary page: kernel-writable exactly if the flags say write, executable by the kernel exactly if they say execute, never by EL0, normal memory, the address in bits 12 to 47. |
| `Descriptors.DeviceWordBits` | aarch64/src/vmm.rs:899-918 | Bit by bit, the word of a device page: writable as asked, never executable, attribute index 7 exactly for registers. |
| `Descriptors.SwapWordBits` | aarch64/src/vmm.rs:69-100 | Bit by bit, the word of a swapped page: not valid, marker set, token in the upper half. |
| `Descriptors.ReadBits` | aarch64/src/vmm.rs:69-100 | What a word reads as, by its bits, for every 64-bit word. |
| `Descriptors.SameSlot` | aarch64/src/vmm.rs:501-525 | Two addresses have the same four table indices exactly when they are in the same page of the 48-bit space. |
| `Machine.AllocKeeps` | aarch64/src/vmm.rs:657-669 | Taking a frame keeps the partition of the pool, the one-home rule and the TLB facts. |
| `Machine.DeallocKeeps` | aarch64/src/vmm.rs:678-687 | Giving a frame back keeps them, and raises no taint if no cached translation names the frame. |
| `Machine.MapKeeps` | aarch64/src/vmm.rs:501-525 | Mapping a held frame keeps them. |
| `Machine.DetachKeeps` | aarch64/src/vmm.rs:535-565 | Unmapping keeps them; the only stale translation is the page's own. |
| `Machine.ReprotectKeeps` | aarch64/src/vmm.rs:567-599 | Changing attributes keeps them. |
| `Machine.RetargetKeeps` | aarch64/src/vmm.rs:625-655 | Changing the frame behind a page keeps them. |
| `Machine.FlushKeeps` | aarch64/src/vmm.rs:1459-1473 | Invalidating a run of pages removes exactly their stale translations. |
| `Machine.MapDeviceKeeps` | aarch64/src/vmm.rs:1090-1102 | A device leaf may name only frames outside the pool or pinned ones. |
| `Machine.UnpinKeeps` | aarch64/src/vmm.rs:968-974 | A run goes back: it is then reachable through a cached translation if and only if a device leaf still names one of its frames. |
| `Machine.MapLentKeeps` | aarch64/src/vmm.rs:1284-1321 | A fault-time commit moves one reserved frame behind one leaf. |
| `Runs.BatchFlush` | aarch64/src/vmm.rs:807-814 | Entry i of a batch belongs to page start + i, so flushing the batch's run of pages covers every frame it gives back. |
| `Runs.GiveBackSafe` | aarch64/src/vmm.rs:807-814 | Giving back frames no cached translation names never taints. |
| `Runs.CommitUndone` | aarch64/src/vmm.rs:745-766 | Rolling back a partial commit restores every leaf, the pool and every byte in use. |
| `Runs.UnprotectStep` | aarch64/src/vmm.rs:768-775 | Undoing one protected page restores its old descriptor. |
| `Runs.RelocateDone` | aarch64/src/vmm.rs:1407-1425 | All pages moved: new frames, same bytes, same attributes, old frames held for release. |
| `Runs.RelocateUndone` | aarch64/src/vmm.rs:730-743 | A relocation undone leaves every leaf, byte and free frame as before. |
| `DemandRuns.FlushCovers` | aarch64/src/vmm.rs:807-814 | A batch whose pages form one run is wholly covered by the flush from its first page. |
| `DemandRuns.FlushMisses` | aarch64/src/vmm.rs:476-499 | A batch with a gap leaves a translation to a frame it gives back. |
| `DemandRuns.DemandFlush` | aarch64/src/vmm.rs:476-499 | A full batch flushed and given back: taint so far is exactly that some batch of the mapped pages has a gap, and without one nothing stale is left. |
| `DemandRuns.HoleBetweenBatches` | aarch64/src/vmm.rs:476-499 | One hole after n mapped pages with a mapped page behind it is harmless exactly when n is a multiple of 128. |
| `Mmus.Mmu.DecommitMappedRange` | aarch64/src/vmm.rs:777-805 | Unmaps up to the first hole and reports it; the frames of the unmapped pages are free and no stale translation remains. |
| `Mmus.Mmu.FlushAndDealloc` | aarch64/src/vmm.rs:807-814 | The frames go back only after their pages' translations are gone. |
| `Mmus.Mmu.RollbackPartialCommit` | aarch64/src/vmm.rs:745-766 | Unmaps exactly the mapped prefix; its panic is never reached. |
| `Mmus.Mmu.CommitPages` | aarch64/src/vmm.rs:870-891 | Every page gets a zeroed frame that was free, or nothing is different. Overlap exactly when a page was mapped before any refusal; OutOfFrames exactly when the pool refused a frame during the call. |
| `Mmus.Mmu.AllocUserFrame` | aarch64/src/vmm.rs:657-669 | A zeroed frame that was free and names no table, or one more refusal on record and nothing else different. |
| `Mmus.Mmu.RollbackPartialProtect` | aarch64/src/vmm.rs:768-775 | Restores the old descriptors; its panic is never reached. |
| `Mmus.Mmu.ProtectPages` | aarch64/src/vmm.rs:983-1006 | Every page has the new attributes and its old frame, or nothing is different. |
| `Mmus.Mmu.BuildRelocationPlan` | aarch64/src/vmm.rs:689-728 | A plan copies every page into a fresh frame and touches no leaf; it fails exactly on an unmapped page or a refusal by the pool, and then gives all frames back. |
| `Mmus.Mmu.RelocatePages` | aarch64/src/vmm.rs:1412-1424 | New frames, same bytes and attributes for every page, or nothing is different; which of the two by what is mapped and whether the pool refused. |
| `Mmus.Mmu.RollbackRelocation` | aarch64/src/vmm.rs:730-743 | Restores the old frame of every installed page and frees all new ones; its panic is never reached. |
| `Mmus.Mmu.ClearSwapDescriptor` | aarch64/src/vmm.rs:245-257 | Clears a swap descriptor and nothing else. |
| `Mmus.Mmu.SwapOutLeaf` | aarch64/src/vmm.rs:281-299 | The page's bytes are handed out, its leaf holds the token, its frame is free and unreachable. |
| `Mmus.Mmu.SwapInLeaf` | aarch64/src/vmm.rs:316-346 | A frame filled first goes behind the leaf, or the pool refused and nothing is different. |
| `Mmus.Mmu.UnmapDemandPages` | aarch64/src/vmm.rs:476-499 | Removes exactly the valid pages; the flush-before-free rule is kept exactly when no batch has a gap. |
| `Mmus.Mmu.PrepareBlocks` | aarch64/src/vmm.rs:1268-1273 | Walks one page per block and leaves a leaf table under every page of the range. |
| `Mmus.Mmu.CommitLent` | aarch64/src/vmm.rs:1284-1321 | The three outcomes of a fault-time commit, and the state each leaves. |
| `Mmus.Mmu.MapDevicePages` | aarch64/src/vmm.rs:1090-1105 | Succeeds exactly on empty leaves; a failure undoes every page. |
| `Mmus.Mmu.TearDownDeviceRange` | aarch64/src/vmm.rs:923-932 | All pages of the mapping are unmapped and flushed. |
| `Mmus.Mmu.AllocRun` | aarch64/src/vmm.rs:1213-1217 | A contiguous zeroed run at the alignment asked for leaves the free pool for the pinned set, or one more refusal is on record. |
| `Mmus.Mmu.FreeRun` | aarch64/src/vmm.rs:968-974 | A run goes back to the free pool; no frame of it was reachable if and only if no device leaf named one. |
| `Mmus.Mmu.UnmapEach` | aarch64/src/vmm.rs:1033-1039 | Release unmaps whatever is mapped of a region and skips the rest. |
| `Regions.RemoveCommittedRange` | kernel/src/memory/reservations.rs:581-611 | The region list after cutting a range tiles exactly the map minus the range. |
| `Regions.RegionsCover` | kernel/src/memory/reservations.rs:552-566 | The cursor walk answers whether every page of the range is in the map. |
| `Regions.TakeSwappedRange` | kernel/src/memory/reservations.rs:568-579 | The taken entries are exactly those in the range, in order; the kept ones exactly the others. |
| `Regions.InsertSwap` | kernel/src/memory/reservations.rs:359-386 | Insertion keeps the entry list sorted and exact. |
| `Regions.Intersections` | kernel/src/memory/reservations.rs:241-256 | The clipped committed parts of the range, in list order: together exactly the committed pages of it, apart from each other. |
| `Regions.Split` | kernel/src/memory/reservations.rs:289-331 | Protect and commit lists partition the range into granted and ungranted pages; every part to protect has one grant. |
| `Tracker.FirstFit` | kernel/src/memory/reservations.rs:333-348 | The first range long enough gives its first pages; the range leaves the list by swap-remove and what is left of it goes last. No page is lost and nothing overlaps. |
| `Tracker.ReservationTracker.constructor` | kernel/src/memory/reservations.rs:91-97 | An empty tracker. |
| `Tracker.ReservationTracker.Reserve` | kernel/src/memory/reservations.rs:99-106 | Adds a reservation; the tracker stays right if and only if the range is a nonempty part of the window apart from all others. |
| `Tracker.ReservationTracker.Release` | kernel/src/memory/reservations.rs:110-121 | Succeeds exactly on a reservation's own range; hands back its regions and entries and forgets its pages. |
| `Tracker.ReservationTracker.PrecheckCommit` | kernel/src/memory/reservations.rs:125-135 | NotReserved, Overlap or Ok, by the maps. |
| `Tracker.ReservationTracker.RecordCommit` | kernel/src/memory/reservations.rs:144-160 | Grants the range and hands back the swap entries it replaces; the tracker stays right if and only if no page of it was committed, and the range is one piece then. |
| `Tracker.ReservationTracker.EnsureCommitted` | kernel/src/memory/reservations.rs:162-171 | Ok exactly when every page is committed. |
| `Tracker.ReservationTracker.RecordDecommit` | kernel/src/memory/reservations.rs:173-184 | Takes the range off the map; a fully committed range holds no swap entry. |
| `Tracker.ReservationTracker.RecordProtect` | kernel/src/memory/reservations.rs:186-214 | New flags for exactly the range; every page has the owner of the first committed part of it in list order; swap entries are untouched. |
| `Tracker.ReservationTracker.LookupPage` | kernel/src/memory/reservations.rs:221-239 | What the record says of one page. |
| `Tracker.ReservationTracker.TakeSwapEntriesIn` | kernel/src/memory/reservations.rs:262-269 | Removes and returns the swap entries of the range. |
| `Tracker.ReservationTracker.TakeCommittedIntersections` | kernel/src/memory/reservations.rs:271-287 | Takes exactly the committed pages of the range off the map and hands out their parts in list order. |
| `Tracker.ReservationTracker.AccessibilityPlan` | kernel/src/memory/reservations.rs:289-331 | Lists what to protect and what to commit, each part to protect under one grant. |
| `Tracker.ReservationTracker.ReuseFreeRange` | kernel/src/memory/reservations.rs:333-348 | First fit out of the free list, exactly; none exactly when no range is long enough. |
| `Tracker.ReservationTracker.PushFreeRange` | kernel/src/memory/reservations.rs:351-353 | The released range joins the free list; right if and only if it is apart from every reservation and released range. |
| `Tracker.ReservationTracker.RecordSwapOut` | kernel/src/memory/reservations.rs:359-386 | Moves one page from committed to swapped, keeping its grant. |
| `Tracker.ReservationTracker.TakeSwapEntry` | kernel/src/memory/reservations.rs:388-404 | Moves one page back. |
| `Books.AgreeSwapOut` | aarch64/src/vmm.rs:267-299 | Leaf and record still name the same tokens after a swap-out. |
| `Books.AgreeSwapIn` | aarch64/src/vmm.rs:304-346 | Leaf, record and attributes agree after a swap-in. |
| `Books.AgreeDrop` | aarch64/src/vmm.rs:862-868 | Dropping entries and descriptors together keeps the agreement. |
| `Books.NewMappingApart` | aarch64/src/vmm.rs:1195-1248 | A range of empty leaves overlaps no recorded mapping, so commit_contiguous need not ask the list. |
| `Books.AddMapping` | aarch64/src/vmm.rs:1072-1248 | Pushing a freshly mapped range keeps the list exact: ranges apart, pages valid, runs apart. |
| `Books.DropMapping` | aarch64/src/vmm.rs:940-964 | Removing one mapping with its pages and run keeps the list exact, whether or not a view of the run is left. |
| `Outcomes.DropNeedsNoViews` | aarch64/src/vmm.rs:1113-1127 | Dropping a pinned run is clean if and only if no second view of it is left; every page of a view left is a live translation to a free frame. |
| `Outcomes.SweepSame` | aarch64/src/vmm.rs:940-964 | Whether a sweep is clean depends only on the pages of the mappings still listed. |
| `Outcomes.UnviewedIsClean` | aarch64/src/vmm.rs:940-964 | A sweep over runs without a second view is clean in whatever order it meets them. |
| `Outcomes.CleanNeeds` | aarch64/src/vmm.rs:940-964 | In a clean sweep every view of a swept run lies inside the range itself. |
| `Books.LedgerOrphan` | aarch64/src/vmm.rs:192-198 | Orphaning moves exactly the dropped tokens, once each. |
| `Books.LedgerIssue` | aarch64/src/vmm.rs:267-299 | A swap-out puts one new token in one place; the ledger stays right if and only if the token was not in use. |
| `Books.LedgerSettle` | aarch64/src/vmm.rs:304-346 | A swap-in takes one token out of its place. |
| `Books.TokenInOnePlace` | aarch64/src/vmm.rs:88-100 | A token issued once is on record as swapped, or waits as an orphan, or was handed back once: exactly one of the three. |
| `Books.LedgerDrain` | aarch64/src/vmm.rs:1395-1405 | Draining hands every waiting token over once. |
| `Outcomes.AccountedCarve` | kernel/src/memory/reservations.rs:520-536 | Carving advances the cursor over exactly the new reservation. |
| `Outcomes.AccountedReuse` | aarch64/src/vmm.rs:428-433 | Reusing a released range keeps the window accounted for. |
| `Outcomes.AccountedRelease` | aarch64/src/vmm.rs:1026-1046 | A released range moves from the reservations to the free list. |
| `Outcomes.AgreeDemand` | aarch64/src/vmm.rs:1257-1282 | Page table and record agree after preparing a range if and only if it held no swapped page and no device page. |
| `Outcomes.CommitWords` | aarch64/src/vmm.rs:870-891 | After a commit every leaf of the range reads from the word that the code builds for its frame and the flags. |
| `Outcomes.ProtectWords` | aarch64/src/vmm.rs:983-1006 | After a protect every leaf of the range reads from the word of its old frame and the new flags. |
| `Outcomes.RunWords` | aarch64/src/vmm.rs:1090-1105 | Every leaf of a mapped device run reads from the word that device_pte builds for its frame. |
| `Outcomes.ValidateExact` | kernel/src/memory/reservations.rs:495-506 | A range passes exactly when it is a positive whole number of pages from a page boundary on; empty is reported before misaligned. |
| `Outcomes.SteppedExact` | aarch64/src/vmm.rs:476-499 | Stepping a range by pages meets exactly the pages of its bytes at whole pages from the start. |
| `Outcomes.EnclosesExact` | hal/src/vmm.rs:119-122 | One byte range encloses another exactly when it has all its bytes. |
| `Outcomes.AcceptsExact` | hal/src/device.rs:206-215 | A run passes the placement exactly when it starts at the alignment, ends below 2^64 and has no byte above the limit. |
| `Outcomes.CoversExact` | aarch64/src/vmm.rs:940-964 | A sweep takes a mapping exactly when the swept range has every byte of its pages. |
| `AddressSpaces.AddressSpace.constructor` | aarch64/src/vmm.rs:167-181 | The invariant holds of a new address space. |
| `AddressSpaces.AddressSpace.Reserve` | aarch64/src/vmm.rs:1012-1024 | First fit from the released ranges whenever one is long enough, otherwise the next pages of the window; a new reservation touches no other, and it fails exactly when neither has room. |
| `AddressSpaces.AddressSpace.Commit` | aarch64/src/vmm.rs:1048-1052 | Every page fresh and zeroed, or every valid page as before. If the pool refuses nothing, success exactly when validation, flags and precheck pass and no page is mapped; OutOfFrames exactly when it refused. The swap entries of the range stay exactly when the call is not admitted. |
| `AddressSpaces.AddressSpace.CommitLocked` | aarch64/src/vmm.rs:853-896 | The same under the lock, with flags and owner on record as given; swap entries go exactly when the range is admitted. |
| `AddressSpaces.AddressSpace.Decommit` | aarch64/src/vmm.rs:1054-1064 | Takes the range off the record and unmaps it up to the first hole, exactly; complete unless a demand-commit page has no frame yet; which error when. |
| `AddressSpaces.AddressSpace.Protect` | aarch64/src/vmm.rs:1066-1070 | All or nothing, with the exact condition for success and which error when; frames stay, flags are the new ones and the owner that of the first committed part in list order. |
| `AddressSpaces.AddressSpace.Relocate` | aarch64/src/vmm.rs:1407-1425 | All or nothing: new frames, same bytes and attributes; which error when, OutOfFrames exactly if the pool refused. |
| `AddressSpaces.AddressSpace.SwapOutPage` | aarch64/src/vmm.rs:267-299 | Success exactly for an aligned, committed, mapped page and a page-sized buffer; bytes out, token in leaf and record, frame free; the books stay right if and only if the token was not in use. |
| `AddressSpaces.AddressSpace.SwapInPage` | aarch64/src/vmm.rs:304-346 | The old grant and the given bytes are back and the token is returned, or leaf and record are as before; which error when, OutOfFrames exactly if the pool refused. |
| `AddressSpaces.AddressSpace.SwapRoundTrip` | aarch64/src/vmm.rs:267-346 | Out and in again for every committed page with a frame: same bytes, the attributes on record, same record, and the token given is the token returned. |
| `AddressSpaces.AddressSpace.SwappedToken` | aarch64/src/vmm.rs:1378-1380 | The lock-free reading of the leaf is the tracker's token. |
| `AddressSpaces.AddressSpace.DrainOrphanedSwapTokens` | aarch64/src/vmm.rs:1395-1405 | Hands out each waiting token once and keeps the ledger. |
| `AddressSpaces.AddressSpace.DecommitCommittedSubranges` | aarch64/src/vmm.rs:821-834 | Every committed and swapped page of the range goes off the record; success exactly when every committed one is mapped. The pages out of the table are exactly those before the first hole of the committed parts, taken in list order. |
| `AddressSpaces.AddressSpace.EnsureAccessibleSubranges` | aarch64/src/vmm.rs:836-851 | Every page committed with the flags; committed pages keep frame and owner, all others are fresh and zeroed under the calling owner, swapped ones included. A refusal says why, leaves the pages done so far and every other page as it was. |
| `AddressSpaces.AddressSpace.MapDevice` | aarch64/src/vmm.rs:1072-1111 | The exact condition for success, the mapped run and the list entry; otherwise the reason and nothing different. |
| `AddressSpaces.AddressSpace.MapShared` | aarch64/src/vmm.rs:1129-1178 | The same for a second view of a pinned run. |
| `AddressSpaces.AddressSpace.CommitContiguous` | aarch64/src/vmm.rs:1195-1248 | A zeroed run the placement accepts, pinned, mapped and listed; otherwise the reason and nothing different. With the range free, it is turned down exactly by a refusal of the pool or of the placement. |
| `AddressSpaces.AddressSpace.UnmapDevice` | aarch64/src/vmm.rs:1113-1127 | Drops the mapping that starts there, whole, and frees its own run; the invariant holds afterwards if and only if no shared view of the run is left. |
| `AddressSpaces.AddressSpace.DropDevice` | aarch64/src/vmm.rs:1113-1127 | One mapping leaves the list, the table and, if pinned, its run the pinned set; tainted exactly when a view of it is left. |
| `AddressSpaces.AddressSpace.SweepDeviceMappings` | aarch64/src/vmm.rs:940-964 | No mapping wholly inside the range remains, every other entry remains as often as before; tainted exactly when the sweep, in its own order, frees a run with a view still listed. |
| `AddressSpaces.AddressSpace.Release` | aarch64/src/vmm.rs:1026-1046 | Sweep first; then every committed page and swap entry of exactly that reservation is gone, tokens orphaned, range reusable; the invariant holds afterwards if and only if the sweep is clean. |
| `AddressSpaces.AddressSpace.PrepareDemandCommit` | aarch64/src/vmm.rs:1257-1282 | Leaf tables under the whole range, no page mapped; the invariant holds afterwards if and only if no page of the range was swapped or a device page. |
| `AddressSpaces.AddressSpace.CommitDemandPage` | aarch64/src/vmm.rs:1284-1321 | Every outcome; NotDemandCommit exactly when the page has no leaf table; the invariant holds afterwards if and only if the page was not on record as swapped. |
| `AddressSpaces.AddressSpace.EndDemandCommit` | aarch64/src/vmm.rs:1323-1341 | Off the record and unmapped; the invariant and flush-before-free hold afterwards if and only if no batch of the mapped pages has a gap; which error when. |
| `AddressSpaces.AddressSpace.Lend` | aarch64/src/vmm.rs:1284-1321 | A zeroed frame moves to the fault-time reserve, or one more refusal is on record. |
| `AddressSpaces.AddressSpace.Translate` | aarch64/src/vmm.rs:1343-1363 | Unmapped, Reserved, or the frame behind the page with the recorded flags. |
| `Histories.TokenInUse` | kernel/src/memory/reservations.rs:60-64 | Read off the tracker's entry lists and the orphan list: a token is in use exactly when the record or the list has it. |
| `Histories.NoneSwapped` | aarch64/src/vmm.rs:1378-1380 | Read off the leaves, page by page: no page of the range is on record as swapped. |
| `Histories.RunPinned` | aarch64/src/vmm.rs:1129-1178 | Read off the device list: a run is pinned exactly when listed runs hold all of it. |
| `Histories.Viewed` | aarch64/src/vmm.rs:1113-1127 | Read off list and leaves: some shared view names a frame of the run. |
| `Histories.SweepIsClean` | aarch64/src/vmm.rs:940-964 | Read off list and leaves: the sweep of a release will be clean. |
| `Histories.HasGap` | aarch64/src/vmm.rs:476-499 | Read off the leaves: some batch of the mapped pages has a gap. |
| `Histories.Step` | aarch64/src/vmm.rs:1012-1425 | One call of any kind, made exactly when its caller's duty is met, keeps the invariant. Every ordinary mapped page stays on the record if and only if, before the call: no mapped page of a decommit lies behind a hole, none of a sub-range decommit behind a hole of the listed parts, a fault-time commit is of a granted page, an end names every mapped page. |
| `Histories.Execute` | aarch64/src/vmm.rs:1012-1425 | Over every run of calls, device and demand-commit ones and failing ones included: frames partitioned, one home each, nothing given back under a live translation, device list exact, leaf tokens equal recorded tokens, leaf tables kept; with fresh tokens, each token issued in exactly one place. |
| `Histories.Heedless` | aarch64/src/vmm.rs:1012-1425 | One call made whether or not its caller's duty is met: frames still partition the pool and each ordinary one has one home. |
| `Histories.ExecuteThen` | aarch64/src/vmm.rs:1012-1425 | The same after any run of calls. |
| `Histories.PreparedStays` | aarch64/src/vmm.rs:1257-1282 | A range counts as prepared exactly when the call's duty is met and the call is admitted. After any run of calls, a fault-time commit in it is never refused as unprepared, and a well-formed one maps the page or finds it mapped; only an empty reserve prevents it. |
| `Failures.SkippedPage` | aarch64/src/vmm.rs:476-499 | From a fresh address space: prepare three pages, commit the first and the last, end; frames went back under live translations. |
| `Failures.StrandedDescriptor` | aarch64/src/vmm.rs:1257-1282 | From a fresh address space: swap a page out, prepare its range; a leaf shows a token the record does not have. |
| `Failures.UnpreparedAccepted` | aarch64/src/vmm.rs:1284-1321 | From a fresh address space: prepare, end, fault; a page that no record grants is mapped. |
| `Failures.SwapOverwritten` | aarch64/src/vmm.rs:1284-1321 | From a fresh address space: a fault-time commit of a swapped page; the page is mapped and still on record as swapped. |
| `Failures.PreparedDevice` | aarch64/src/vmm.rs:1257-1282 | From a fresh address space: a register window prepared for demand commit; the page is a device page and granted. |
| `Failures.DecommitBehindHole` | aarch64/src/vmm.rs:1054-1064 | From a fresh address space: a decommit stops at a hole and leaves a mapped page off the record. |
| `Failures.EndTooNarrow` | aarch64/src/vmm.rs:1323-1341 | From a fresh address space: an end that names one page leaves the other mapped and off the record. |
| `Failures.SubrangesBehindHole` | aarch64/src/vmm.rs:821-834 | From a fresh address space: a sub-range decommit stops at a hole and leaves a mapped page off the record. |
| `Failures.ContentsLost` | aarch64/src/vmm.rs:836-851 | From a fresh address space: a swapped page made accessible reads zeroes and its token waits in the orphan list. |
| `Failures.ViewOutlivesRun` | aarch64/src/vmm.rs:1113-1127 | From a fresh address space: a pinned run, a second view, the run dropped; a live translation names a free frame. |
| `Failures.ReleaseUnderView` | aarch64/src/vmm.rs:1026-1046 | From a fresh address space: a release sweeps a pinned run while a view outside the range still names it. |
| `Blocks.BlockStartsExact` | hal/src/vmm.rs:131-143 | Every address of the range has exactly one listed address in its block, and that is the first of the range in the block. |
| `Blocks.BlockOf` | hal/src/vmm.rs:131-143 | Listed addresses lie in the range, one per consecutive block. |
| `Blocks.BlockStartsScale` | hal/src/vmm.rs:131-143 | The list of a byte range is the list of its page range in bytes. |
| `Arithmetic.PowerOfTwoIff` | aarch64/src/vmm.rs:1202-1205 | The alignment check passes exactly on the powers of two. |
| `CriticalSection.TokenBack` | hal/src/critical_section.rs:222-232 | Both halves of a token are read back. |
| `CriticalSection.RawDistinct` | hal/src/critical_section.rs:41-101 | Bootstrapping and installed identities of different processors never coincide and are nonzero. |
| `CriticalSection.BootstrappingExact` | hal/src/critical_section.rs:41-66 | The bootstrapping identities are exactly the odd words, each of one processor. |
| `CriticalSection.StepKeeps` | hal/src/critical_section.rs:163-213 | Every access of acquire and release, every interrupt and every identity switch keeps the invariant. |
| `CriticalSection.MutualExclusion` | hal/src/critical_section.rs:163-213 | Over every interleaving: at most one processor inside, its interrupts off, depth equal to its tokens, and the release assertions hold. |
| `CriticalSection.ExclusiveIffDistinct` | hal/src/critical_section.rs:41-101 | Mutual exclusion holds over every run if and only if the processors' identities are distinct. |
| `CriticalSection.SharedIdentity` | hal/src/critical_section.rs:163-186 | The run in which two processors with one identity are both inside. |
| `CriticalSection.InvNoPanic` | hal/src/critical_section.rs:172-213 | Underflow and outermost assertions never fire; the overflow assertion only at the largest count of tokens. |
| `CriticalSection.OutOfOrderPanics` | hal/src/critical_section.rs:195-209 | Releasing the outermost token first trips the outermost assertion. |
| `CriticalSection.RestoresWhatItFound` | hal/src/critical_section.rs:195-213 | The outermost release leaves the interrupt mask as the outermost acquire found it, nested ones leave it off. |
| `CriticalSection.HandlerReturns` | hal/src/critical_section.rs:163-213 | A handler starts with interrupts off and nothing held; returning from it at once gives the state before it. |
| `CriticalSection.AcquireFinds` | hal/src/critical_section.rs:163-186 | A fresh acquire finds the mask as it was last set, leaves it off, and its token brings that mask back. |
| `CriticalSection.InstallIffFree` | hal/src/critical_section.rs:58-66 | Switching identity keeps the invariant if and only if the processor holds nothing. |
| `ParkWake.NoLostWakeup` | kernel/src/exec/idle.rs:1-21 | In every run without a self-schedule between the last look and the mask: asleep over queued work means a wake is pending or a waker has yet to send it; once one waker has finished since the last look, the interrupt is pending whatever the others do. |
| `ParkWake.StepKeeps` | kernel/src/exec/executor.rs:928-984 | Every step of the parker, of any waker and of interrupt delivery keeps the handshake, the published idle state and the mask, that one excepted. |
| `ParkWake.WindowIff` | kernel/src/exec/executor.rs:1312-1326 | After a self-schedule in that window, some continuation sleeps over the work with nothing left to wake it if and only if no wake was under way when it happened. |
| `ParkWake.WindowLoses` | kernel/src/exec/executor.rs:1312-1326 | The run in which it loses the wake. |
| `ParkWake.OwedAlways` | aarch64/src/lib.rs:892-923 | Over every run, that step included: a wake_processor completed since the last look has left the interrupt pending if the owner sleeps. |
| `ParkWake.MaskKept` | aarch64/src/lib.rs:892-910 | Over every run the interrupt mask is the one the run began with everywhere outside the masked stretch, and that one is remembered inside it. |
| `ParkWake.WakeDelivered` | aarch64/src/lib.rs:892-910 | So a pending wake is taken as soon as the parker has left the masked stretch, wakes it inside wfi, and it is running exactly when it works. |
| `ParkWake.OwnerChoices` | kernel/src/exec/executor.rs:928-984 | The parker is never stuck: it goes idle exactly with its queue empty, polls exactly while it stays empty, and leaves wfi on its interrupt or spuriously. |
| `ParkWake.TasksConserved` | kernel/src/exec/executor.rs:928-984 | Over every run the queue holds what was there plus what was queued minus what was taken. |
| `ParkWake.FlagAndSgi` | aarch64/src/lib.rs:892-923 | Over every run the flag is up exactly when it was set after the last swap, and the interrupt pending exactly when it was sent after it was last taken. |
| `ParkWake.NoNeedlessWake` | kernel/src/exec/executor.rs:1312-1326 | No flag and no interrupt in a run without a published idle state, and none in a run without a push onto an empty queue. |
| `ParkWake.Completed` | aarch64/src/lib.rs:916-923 | A waker that set the flag while the owner was committed and sends the interrupt before the next look counts as done. |
| `Wire.LeBack` | artifact/src/bootfs.rs:454-468 | Little-endian fields read back what was written. |
| `Wire.PackedSlice` | artifact/src/bootfs.rs:370-386 | Each blob of a padded section is found at its recorded offset. |
| `Bootfs.Parse` | artifact/src/bootfs.rs:161-253 | The loop with its counters and path set computes the recursive scan, errors and their order included. |
| `Bootfs.HeaderLaid` | artifact/src/bootfs.rs:161-213 | An accepted header places the sections inside the image, in order and apart. |
| `Bootfs.ParsedIff` | artifact/src/bootfs.rs:161-253 | Parsing succeeds exactly when the header is right, every entry reads, there is one init component and one argv0 and no directory or file path repeats; `Format` says the same of the bytes. |
| `Bootfs.ParsedErrors` | artifact/src/bootfs.rs:161-253 | Which error when, in the order of the checks: the header's, then that of the first record that does not read or repeats a path, then the count of components, then that of argv0. |
| `Format.HeaderIff` | artifact/src/bootfs.rs:161-213 | A header is accepted exactly when the eight magic bytes, version 1, the alignments, the section bounds and the section order, read at their byte offsets, are right; the sections are then where it says. |
| `Format.HeaderErrors` | artifact/src/bootfs.rs:161-213 | Each header fault, by the bytes, gives its own error, in this order. |
| `Format.EntryIff` | artifact/src/bootfs.rs:275-353 | A record of 48 bytes reads exactly when kind code, reserved word, alignments, bounds, text and data rule are right at their byte offsets; the entry is then those bytes. |
| `Format.EntryErrors` | artifact/src/bootfs.rs:275-353 | Each record fault, by the bytes, gives its own error, in this order. |
| `Format.AcceptsIff` | artifact/src/bootfs.rs:161-353 | The parser accepts exactly the well-formed byte strings, where well-formed is said of bytes at offsets and not of the parser. |
| `Format.TextIff` | artifact/src/bootfs.rs:275-307 | The text check passes exactly on the UTF-8 encodings of Unicode scalar values. |
| `Bootfs.ParsedSafe` | artifact/src/bootfs.rs:161-353 | In a parsed image every entry reads, its path lies in the string table and its data in the data section. |
| `BootfsWriter.WriteImage` | artifact/src/bootfs.rs:370-428 | The loops produce the specified image. |
| `BootfsWriter.WrittenEntry` | artifact/src/bootfs.rs:275-307 | Every written record reads back as its entry; only data on a directory or argv0 is refused. |
| `BootfsWriter.RoundTrip` | artifact/src/bootfs.rs:161-428 | For every entry list within the size limits: the image parses if and only if the list is one image, and then entries() returns the list. |
| `Calendar.DaysExact` | hal/src/rtc.rs:268-280 | The era formula equals the sum of year and month lengths, for every year from 1970. |
| `Calendar.NextIsNext` | hal/src/rtc.rs:249-280 | Consecutive dates get consecutive numbers. |
| `Calendar.DaysOrder` | hal/src/rtc.rs:268-280 | Later dates get larger numbers. |
| `Calendar.DaysBijective` | hal/src/rtc.rs:268-280 | Valid dates and naturals correspond one to one. |
| `Calendar.ToUnixSeconds` | hal/src/rtc.rs:96-137 | Accepts exactly the readings of the calendar, leap seconds included, and counts days by the calendar's own definition. |
| `Calendar.RefusalNames` | hal/src/rtc.rs:96-137 | A refusal names the first field out of range, coarsest first, with its value. |
| `Calendar.SecondsIncrease` | hal/src/rtc.rs:96-137 | Later readings give larger counts when no leap second is involved. |
| `Calendar.LeapSecond` | hal/src/rtc.rs:96-137 | Second 60 counts as second 0 of the next minute, across hours, days, months and years. |
| `Timebase.TicksToNanosExact` | hal/src/cpu.rs:111-118 | The split 64-bit computation is the exact floor, capped; its product fits. |
| `Timebase.NanosToTicksExact` | hal/src/cpu.rs:126-136 | The split computation is the exact ceiling, capped; its product fits. |
| `Timebase.DurationToTicksExact` | hal/src/cpu.rs:146-155 | The split computation is the exact floor for durations, capped. |
| `Timebase.DeadlineLeast` | hal/src/cpu.rs:111-136 | A deadline is the least tick count whose time has reached the request. |
| `Timebase.MaxFrequency` | hal/src/cpu.rs:80-100 | The accepted frequencies are exactly those whose sub-second products fit. |
| `BootMemory.PiecesExact` | hal/src/boot.rs:186-193 | The pieces of a segment are the segment minus the reserved range, nonempty, ascending and apart. |
| `BootMemory.PiecesApartIff` | hal/src/boot.rs:186-193 | They are apart if and only if the reserved range is not inverted inside the segment. |
| `BootMemory.InvertedReservation` | hal/src/boot.rs:186-193 | The inverted range that hands out bytes twice. |
| `BootMemory.SubtractCount` | hal/src/boot.rs:165-182 | One reserved range adds at most one segment. |
| `BootMemory.SubtractAllExact` | hal/src/boot.rs:149-193 | The union is the region minus all reserved ranges; at most one segment more than ranges. |
| `BootMemory.SubtractReservedRange` | hal/src/boot.rs:165-182 | The fixed array holds exactly the specified segments, or the capacity assertion fires exactly when they do not fit. |
| `BootMemory.UsableRegionSegments` | hal/src/boot.rs:149-163 | For any region and any four ranges: the specified segments, or the capacity assertion exactly when they do not fit; ranges that are not inverted always fit and leave the region minus all of them. |
| `Dma.WithWindow` | hal/src/iommu.rs:350-362 | The new window goes last; refused exactly when all slots are taken. |
| `Dma.AddressIs` | hal/src/iommu.rs:298-304 | An address inside a window translates by that window's offset. |
| `Dma.RangeAccepts` | hal/src/iommu.rs:385-400 | A range is accepted exactly when its first and last byte lie in windows of equal offset. |
| `Dma.RangeErrors` | hal/src/iommu.rs:385-400 | Which error when: past the last address; or the last byte if only it has no window; or else the first byte. |
| `Dma.DirectExact` | hal/src/iommu.rs:385-417 | Without translation every address and every range stands for itself. |
| `Dma.RangeExact` | hal/src/iommu.rs:385-400 | With distinct offsets: accepted exactly inside one window, and every byte translates to its place. |
| `Dma.DistinctOffsetsNeeded` | hal/src/iommu.rs:385-400 | Every accepted range lies in one window if and only if the offsets are distinct. |
| `Dma.GapAccepted` | hal/src/iommu.rs:385-400 | Two windows of equal offset with a gap: the range over the gap is accepted and one of its bytes has no address. |
| `Zeroing.DcZvaZero` | aarch64/src/lib.rs:1106-1130 | Every byte of the range is zero and no other byte changed, for every start, length and block size. |

## Left out

- Two processors inside the address space at once: device operations hold only the list's lock, so the claim that every mutation holds the state lock is not made.
- Access-flag scanning and aging, and the per-owner statistics of the tracker.
- Atomicity of decommit and of the sub-range hooks when they fail half-way: they are not atomic, and their contracts say what was done.
- AddressSpaces.AddressSpace.SwappedToken: takes addresses of the user window only, because the kernel half of the root is not walked in the model.
- AddressSpaces.AddressSpace.CommitDemandPage: takes addresses of the user window and frames from the fault-time reserve only, because a frame from anywhere else belongs to code outside the model.
- AddressSpaces.AddressSpace.MapDevice: does not model a range that lies outside a reservation or holds committed pages, because the caller owns that check; the same holds of `MapShared` and `CommitContiguous`.
- AddressSpaces.AddressSpace.MapShared: does not model a range that names frames no device pinned, because the caller owns them.
- Histories.Execute: leaves out a call whose caller breaks its duty; what such a call does is in its own contract and in `Heedless`, and no run goes on after it.
- Mmus.Mmu.AllocUserFrame: does not say when the pool refuses, because the pool behind it is shared with code outside the model; every operation above it says what it does if the pool refuses and if it does not.
- AddressSpaces.AddressSpace.CommitContiguous: does not say which frame run is chosen or when the pool has one, because the buddy allocator is not part of the model.
- ParkWake.NoLostWakeup: covers one processor's local queue; the global queue, the root future and timer deadlines take part in the same handshake and are not in the state.
- The overflow of the entry-table size in the boot image parser, which cannot happen with a 64-bit `usize`.
- The bit masks of block iteration and block zeroing are written as remainders, which they are for powers of two.
- Returning lent frames from the fault-time reserve, and the reserve's own policy.
- MMIO mapping during boot, interrupt-controller and serial registers, exception entry, and all assembly.
- Signatures of boot artifacts, the component compiler, the command line tools, the hosted backend and the API crates.
- The HAL's trait-only files and small tables.
