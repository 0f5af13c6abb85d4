# Model of the IOMMU crate's command ring, VT-d invalidation and firmware tables

This project models the parts of the crate that carry real state and real arithmetic, and
proves what they keep.

- **Command ring** (`Ring`, `RingSafety`, `RingRuns`, `RingTheorems`, `RingAlone`,
  `RingBlocked`, `RingClaims`, `RingReads`, `CommandBacking`, `CommandQueue`).
  `CommandQueue::submit` as a transition system: any number of overlapping calls, each with a
  program counter, one in-order consumer, and bounded waits that may give up at any poll. One
  event is one atomic access. `CommandQueue.dfy` is the same queue as an object, its methods
  written as the source writes them, with arbitrary events of other calls and of the hardware
  before every access. Each access is proved to be one event of the transition system, and
  `Valid()` says that the object is in a state that a run from its initial memory reaches. The
  theorems about reachable states are stated for every initial memory, since `init` does not
  clear it, and so they are theorems about the object.
- **IOTLB range planner and range invalidation** (`RangePlan`, `Invalidation`, `WrappedRange`,
  `RangeFlush`), and its composition with the ring (`QueuedFlush`).
- **Context entries, bind and unbind** (`ContextCache`, `ContextRuns`, `ContextTheorems`,
  `RequesterLookup`, `ContextBind`, and `QueuedBind` over the ring) against hardware that caches
  context entries and translations whenever it likes, also between the two words of a table
  write, and that reads the words of the two invalidation descriptors.
- **Bounded set of requester ranges** (`BdfRanges`, `BdfRangeSet`), in place in an array.
- **IORT** (`Iort`, `Walks`, `IortWalk`, `IortLookup`, `IortRoots`, `IortFalseCycle`): nodes, ID
  mappings and the bounded ID walk over table bytes.
- **IVRS and DMAR** (`IvrsEntries`, `Ivrs`, `Dmar`): record streams, and the requester sets
  built from them.
- `Basics`, `Bits`, `Bytes` and `Errors` are shared: word arithmetic, little-endian reads, error
  values.

Findings, each proved where it is named:

- Ok from `submit` does not always mean that the hardware has read the descriptor, not even with
  one call at a time: the head register is compared for inequality, which also holds while it is
  still behind. After a call that published and timed out, the next call, alone, can return Ok
  unread (`RingAlone.TimeoutThenUnread`). A caller with no other call in flight can tell before
  it submits: Ok will mean "read" if and only if the hardware has read everything published so
  far, or the call cannot return Ok at all (`RingAlone.OkMeansReadIffDrainedBefore`). For
  overlapping calls the condition is the same when the ticket is taken
  (`RingClaims.OkMeansReadIffDrainedAtClaim`), at any later moment before the tail write
  (`RingClaims.OkMeansReadIffDrainedEarlier`) and at the tail write
  (`RingTheorems.OkMeansReadIffDrained`).
- If every call returns Ok before the next starts, the hardware has read exactly what was
  submitted (`RingAlone.FifoCompletion`, and `RingAlone.FifoFrom` from any drained state).
- A ring of one entry passes validation, but no submit on it ever returns Ok
  (`RingTheorems.SingleEntryNeverOk`).
- The ring stops for good behind a ticket abandoned before its tail write
  (`RingTheorems.AbandonedTicketBlocks`), one lap behind a call that fails after it
  (`RingBlocked.PublishedFailureBlocks`), and, with no failure at all, when head and tail meet on
  the slot of a waiting call (`RingBlocked.StuckForGood`), as on a full ring whose first entry
  has not been read (`RingBlocked.FullRingIsWedged`). With no call in flight the ring is
  usable if and only if the next ticket can publish (`RingBlocked.UsableIffCanPublish`); a call
  that waits for the hardware can still return Ok if and only if head and tail have not met on
  its slot (`RingBlocked.CanReturnOkIffNotWedged`).
- The hardware reads exactly the published descriptors as long as no call stores into the slot
  of an entry that has not been read (`RingReads.ReadsAreFaithful`), for instance if each ticket
  is taken after the entry one lap before it has been read
  (`RingReads.PatientCallsReadFaithfully`). With three or more entries overlapping calls can do
  that, and the hardware then reads bytes of a later call as the entry of one that has returned
  Ok (`RingReads.OverlapCanCorrupt`); with one or two entries it never does
  (`RingReads.AlwaysFaithfulIffSmall`).
- The context descriptor of bind and unbind names the client and leaves the domain id 0
  (`ContextCache.ContextDescriptorHits`). On hardware that compares that id with the cached
  entry's, unbinding a client of a domain with another tag leaves its old entry cached after all
  four accesses, and translations with the active tag can then be filled through it
  (`ContextTheorems.UnbindCanKeepEntry`). A rebinding leaves the caches coherent in every run if
  and only if the hardware does not compare domain ids, or every walkable entry that could be
  cached and is not the new one carries tag 0 (`ContextTheorems.CoherentIffDescriptorCovers`; in
  terms of the old and the torn entry, `ContextTheorems.CoherentIffUntagged`).
- The IOTLB descriptor of a rebinding names the active domain only. No stale translation of any
  tag can survive if and only if each entry that the hardware could have walked before, the old
  one and the one between the two word stores, carries the invalidated tag and is dropped by
  the context descriptor (`ContextTheorems.NeverStaleIffBothCover`). So the ordinary first bind of a
  disabled client to a domain whose tag is not 0 is clean if and only if the hardware does not
  walk a present entry with width code 0, which is what the entry is after the first store
  (`ContextTheorems.FirstBindCleanIff`); unbinding from a domain is clean if and only if domain ids
  are not compared or the tag is 0 (`ContextTheorems.UnbindCleanIff`); and
  `ContextTheorems.OrdinaryRebinds` settles every binding of one controller.
- A client's context entry can be rewritten without rerouting another client if and only if no
  two present buses share a context table (`RequesterLookup.WritesAreLocalIffOwnTables`).
- A page number is encoded exactly in an IOTLB descriptor if and only if it is below `2^52`
  (`VtdInvalidation.BlockAddressExact`). A range that runs past the end of the address space is
  invalidated modulo its size (`VtdWrappedRange.AnyPlanRemovesWrapped`), while the default
  page-by-page flush stops at the end (`VtdInvalidation.SinglePagesRemoveTheRange`).
- The IORT cycle error is returned exactly when the walk has not stopped after `node_count`
  steps (`IortWalk.WalkWithin`). From a table node that means that a node was visited twice, but
  not that there is a cycle: `IortFalseCycle.ArrivingWalkReportedAsCycle` is a table of two nodes
  on which the walk arrives at an SMMU after two steps and the error is returned.

Assumptions. Atomic accesses are sequentially consistent and fewer than `2^64` tickets are
taken. The calls that flush the IOTLB or bind a client take Ok from the queue to mean that the
hardware has executed the descriptor; by `RingTheorems.OkMeansReadIffDrained` that needs the ring
to be drained whenever one of their tails is written, which overlapping calls on the same queue
can break. With no other call in flight and everything read before, it is not an assumption: the
hardware has then read exactly the submitted descriptors (`QueuedFlush.ReadsWhatWasSubmitted`) and
removed exactly the planned range (`QueuedFlush.PlannedFlushThroughRing`), or dropped what the
two descriptors of a rebinding name (`QueuedBind.RebindThroughRing`). The root table is
clear when a unit starts, and tables handed to a unit are pages of their own. Queue,
table and register memory is ordinary memory. Firmware tables are the validated bytes of the
whole table, shorter than `2^32`; on a 64-bit target the source's conversions to `usize` and
additions of offsets then cannot fail. Bit fields that do not overlap are combined
with `+` where the source uses `|`. A register window is named by its base, its size being
fixed. The messages of the malformed-table errors are shortened; the IORT cycle message is the
constructor `Cycle`. The hardware side follows section 6.5.2 (queued invalidation) and
sections 9.1 and 9.3 (root and context entries) of the Intel VT-d Architecture Specification.
What these leave to the hardware is a parameter of the theorems (`ContextCache.Traits`): whether
a device-selective context invalidation compares the domain id, whether entries that cannot be
walked are cached, which translation types and width codes are walked, and draining. The
firmware tables are those of sections 8.1 to 8.4 of the same specification (DMAR), of section 3
of Arm DEN 0049 (IORT) and of section 5.2 of the AMD I/O Virtualization Technology specification
(IVRS), with the byte offsets the code reads.

`dafny verify dfyconfig.toml` checks the whole project.

## Model

| member | source | states |
|---|---|---|
| `RingTheorems.SlotExclusivity` | src/ctrl.rs:340-358 | in every interleaving with any timeouts, each non-EMPTY slot has exactly one holder, and two tickets of one slot are never both between passing `wait_for_empty` and storing EMPTY |
| `RingTheorems.GapFreePublication` | src/ctrl.rs:343-353 | tail write number k is made by ticket k, with value ((k+1) mod entries) * entry bytes, over its own zero-padded bytes, whichever other calls have timed out |
| `RingTheorems.CounterDiscipline` | src/ctrl.rs:353-383 | retired <= committed <= claim and committed <= retired + entries in every reachable state; a call waiting for capacity is never behind retired; after Ok retired is past the ticket |
| `RingTheorems.RunExtends` | src/ctrl.rs:340-358 | counters and histories only grow and finished calls stay finished, under any interference |
| `RingTheorems.AbandonedTicketBlocks` | src/ctrl.rs:363-394 | after a timeout before publication of ticket t, nothing at or past t is ever published and every later call can only fail with ControllerUnavailable |
| `RingTheorems.OkMeansReadIffDrained` | src/ctrl.rs:397-409 | for arbitrary overlap and at least two entries: in all continuations Ok of a call about to write the tail means its descriptor was read, if and only if the ring is drained at that moment |
| `RingClaims.OkMeansReadIffDrainedAtClaim` | src/ctrl.rs:324-360 | for arbitrary overlap and at least two entries: when a call takes its ticket, Ok will mean that its descriptor was read, in every continuation, if and only if the hardware has read everything before the ticket, or the call cannot return Ok in any continuation |
| `RingClaims.OkMeansReadIffDrainedEarlier` | src/ctrl.rs:324-360 | the same for a call at any stage before its tail write |
| `RingTheorems.DrainedOkIsRead` | src/ctrl.rs:349-358 | a call that published onto a drained ring returns Ok only after the consumer has read exactly its descriptor, whatever other calls do |
| `RingAlone.OkMeansReadIffDrainedBefore` | src/ctrl.rs:324-360 | one call at a time, earlier calls having returned Ok or any error: Ok of the next call means its descriptor was read in every continuation, if and only if everything published has been read when it starts or it cannot publish |
| `RingAlone.CanReturnOkIffCanPublish` | src/ctrl.rs:341-349 | with no other call in flight a call can return Ok if and only if all claimed tickets are published, there is room and its slot is EMPTY |
| `RingAlone.TimeoutThenUnread` | src/ctrl.rs:397-409 | on every ring of two or more entries: after a first call that published and timed out, the next call alone can return Ok unread |
| `RingAlone.UndrainedIsReached` | src/ctrl.rs:397-409 | a call about to write the tail of an undrained ring, whose Ok need not mean read, is reached on every such ring |
| `RingAlone.FifoFrom` | src/ctrl.rs:324-360 | from a drained state, one call at a time: Ok means read as long as no call since has failed, and if all return Ok the hardware has read exactly what they submitted, in order |
| `RingAlone.FifoCompletion` | src/ctrl.rs:324-360 | one call at a time from the start and all Ok: the consumed log is the submitted sequence, all counters are the number of calls and all slots EMPTY, across wrap-around |
| `RingAlone.EveryListCompletes` | src/ctrl.rs:324-360 | any list of descriptors can be submitted one call at a time with every call returning Ok |
| `RingBlocked.PublishedFailureBlocks` | src/ctrl.rs:355-358 | after a failure of ticket t behind its tail write, in every continuation at most t + entries tickets are published and every call from t + entries on can only fail with ControllerUnavailable |
| `RingBlocked.UsableIffCanPublish` | src/ctrl.rs:324-360 | with no call in flight, some later call can return Ok under any overlap if and only if the next ticket can publish |
| `RingBlocked.StuckForGood` | src/ctrl.rs:397-409 | once head and tail meet on the slot of a waiting call, nothing is published or read again and neither it nor any unpublished call returns Ok |
| `RingBlocked.CanReturnOkIffNotWedged` | src/ctrl.rs:397-409 | a call that waits for the hardware can still return Ok if and only if head and tail have not met on its slot |
| `RingBlocked.FullRingIsWedged` | src/ctrl.rs:349-355 | every ring gets there with no failure, by calls that fill it before the first read |
| `RingReads.ReadsAreFaithful` | src/ctrl.rs:340-360 | every entry read is the descriptor published as that entry, in every run whose byte stores go to slots whose last entry has been read |
| `RingReads.PatientCallsReadFaithfully` | src/ctrl.rs:340-360 | the same for every run in which each ticket is taken after the entry one lap before it has been read |
| `RingReads.AlwaysFaithfulIffSmall` | src/ctrl.rs:363-409 | whatever calls do, every entry read is the published descriptor, if and only if the ring has at most two entries |
| `RingReads.StoreKeepsUnreadIff` | src/ctrl.rs:428-443 | a byte store keeps what is still to be read intact if and only if the entry it overwrites has been read or the byte is the same |
| `RingReads.OverlapCanCorrupt` | src/ctrl.rs:363-372 | on every ring of three or more entries the hardware can read bytes of a later call as the entry of a call that has returned Ok |
| `RingTheorems.SingleEntryNeverOk` | src/ctrl.rs:397-409 | on a ring of one entry no call returns Ok in any run |
| `RingSafety.InvRun` | src/ctrl.rs:324-360 | every event of every call and of the consumer keeps the ring invariant |
| `CommandBacking.NewBacking` | src/ctrl.rs:92-120 | a backing is accepted if and only if counts and sizes are powers of two, the ring fits both ranges and both are aligned; each error is returned exactly for the first check that fails |
| `CommandBacking.EntriesApart` | src/ctrl.rs:148-156 | on an accepted backing entry i lies at the start plus i entry sizes, the address never overflows, every entry lies inside the mapped range, and entries are disjoint |
| `CommandBacking.WriteSlot` | src/ctrl.rs:428-443 | the byte loop replaces exactly one entry by the zero-padded descriptor |
| `CommandQueues.MaskedSlots` | src/ctrl.rs:343-350 | masking with entries - 1 is reduction modulo the entry count, for the slot and for the tail |
| `CommandQueues.CommandQueue.Init` | src/ctrl.rs:299-311 | refused exactly if the ring has more entries than slot states, and then unchanged; otherwise the initial state of the protocol over any memory |
| `CommandQueues.CommandQueue.WaitForCapacity` | src/ctrl.rs:363-372 | under interference at every poll: Ok leaves the call with room in the ring, giving up leaves it abandoned with nothing held |
| `CommandQueues.CommandQueue.WaitForEmpty` | src/ctrl.rs:375-383 | Ok only having seen the slot EMPTY; the store that follows is a separate access |
| `CommandQueues.CommandQueue.WaitToPublish` | src/ctrl.rs:386-394 | Ok only when it is this ticket's turn; giving up leaves a READY slot behind |
| `CommandQueues.CommandQueue.WaitForConsumed` | src/ctrl.rs:397-409 | Ok only having seen the head off the slot; a failed head read or a timeout leaves a PUBLISHED slot behind |
| `CommandQueues.CommandQueue.WriteSlot` | src/ctrl.rs:428-443 | byte by byte, with interference between bytes, the whole entry |
| `CommandQueues.CommandQueue.AdvanceRetired` | src/ctrl.rs:412-425 | the compare-exchange loop ends under any interference with retired at least ticket + 1 |
| `CommandQueues.CommandQueue.Submit` | src/ctrl.rs:324-360 | a width is refused with InvalidGranule exactly if it is no power of two or exceeds the entry size, and then no ticket is taken; otherwise the call is a run of the protocol from the old state: Ok with its ticket done, an error with its ticket abandoned by that error |
| `CommandQueues.CommandQueue.OkMeans` | src/ctrl.rs:349-359 | after Ok: counters past the ticket, tail write of that number over the padded descriptor, read by the hardware if the ring was drained |
| `CommandQueues.CommandQueue.ErrMeans` | src/ctrl.rs:341-355 | after an error: before publication only ControllerUnavailable, with the counters stopped at the ticket; after it a slot left PUBLISHED |
| `RangePlanner.ExactPartition` | src/arch/x86_64/intel/ctrl.rs:2295-2324 | the blocks are contiguous and ascending, cover every page of the range exactly once and no other page, and are naturally aligned with masks in bounds |
| `RangePlanner.GreedyIsMinimal` | src/arch/x86_64/intel/ctrl.rs:2295-2324 | no cover of the range by in-range naturally aligned blocks with masks in bounds uses fewer blocks |
| `RangePlanner.NextMaskFits` | src/arch/x86_64/intel/ctrl.rs:2312-2324 | the final clamp to the lower bound never raises the mask; the block is aligned and fits, and what is left is a plan again |
| `RangePlanner.NextMaskLargest` | src/arch/x86_64/intel/ctrl.rs:2312-2324 | the greedy block is the largest allowed block that starts there |
| `RangePlanner.NextMaskRuns` | src/arch/x86_64/intel/ctrl.rs:2295-2310 | the subtraction of pages never underflows, on any range the constructor accepts |
| `RangePlanner.CountBound` | src/arch/x86_64/intel/ctrl.rs:2285-2324 | at most 2 * (max mask - min mask) + pages / 2^max mask blocks |
| `RangePlanner.RangePlan.NextBlock` | src/arch/x86_64/intel/ctrl.rs:2295-2310 | yields the blocks of the plan one after another and then None |
| `RangePlanner.RangePlan.DescriptorCount` | src/arch/x86_64/intel/ctrl.rs:2285-2293 | the dry run returns the number of blocks that will be emitted, and changes nothing |
| `RangePlanner.NewPlan` | src/arch/x86_64/intel/ctrl.rs:2257-2283 | accepts exactly aligned ranges with ordered bounds, with the source's errors in order |
| `VtdInvalidation.BlockAddressExact` | src/arch/x86_64/intel/ctrl.rs:2066-2087 | the page a descriptor encodes is the block's page if and only if it is below 2^52 |
| `VtdInvalidation.PageDescriptorHits` | src/arch/x86_64/intel/ctrl.rs:2066-2087 | a page descriptor removes exactly the cached pages of its domain inside its block |
| `VtdInvalidation.GranuleBytes` | src/arch/x86_64/intel/ctrl.rs:2333-2340 | the granule mask of a size counts 4 KiB pages of exactly its bytes, and other sizes have none |
| `VtdInvalidation.PageBytesHit` | src/arch/x86_64/intel/ctrl.rs:2052-2087 | a page descriptor is available exactly if the hardware can mask that many bytes, and applies to the naturally aligned page of that size that holds the address |
| `VtdInvalidation.DescriptorDrains` | src/arch/x86_64/intel/ctrl.rs:2406-2415 | bits 7 and 6 of a descriptor ask for draining exactly as the hardware can drain reads and writes |
| `VtdInvalidation.DomainDescriptorHits` | src/arch/x86_64/intel/ctrl.rs:2041-2050 | a domain descriptor removes exactly the cached pages of its domain |
| `VtdInvalidation.PlanRemovesExactly` | src/arch/x86_64/intel/ctrl.rs:1503-1523 | the planned descriptors remove exactly the range of the domain, and nothing else |
| `VtdInvalidation.PlanRefinesPageLoop` | src/ctrl.rs:465-472 | the plan removes what the page-by-page loop removes, with no more descriptors |
| `VtdInvalidation.PageLoopRemovesExactly` | src/ctrl.rs:465-472 | the default loop's descriptors remove exactly one 4 KiB page per step, for any start, page size and count |
| `VtdInvalidation.SinglePagesRemoveTheRange` | src/ctrl.rs:465-472 | with 4 KiB pages the steps are the range, up to the end of the address space where the addresses saturate |
| `VtdWrappedRange.AnyPlanRemovesWrapped` | src/arch/x86_64/intel/ctrl.rs:1507-1521 | whatever range at most 32 descriptors are planned for, they remove exactly its pages modulo the 64-bit address space, even where page numbers overflow |
| `VtdWrappedRange.RealRangeIsItself` | src/arch/x86_64/intel/ctrl.rs:1507-1521 | which for a range inside the address space is the range |
| `VtdRangeFlush.IotlbUnit.InvalidateRange` | src/arch/x86_64/intel/ctrl.rs:1467-1523 | at most 32 descriptors, only of this domain, and no other domain loses an entry; with pages of 0x1000, 0x20_0000 or 0x4000_0000 bytes, after Ok no entry in the bytes of the range from its 4 KiB page on is left but fresh loads, and with scope Leaf nothing else of the domain is removed; a range past the end of the address space is taken modulo it; other sizes and scope Domain remove the whole domain; AddressOverflow exactly for a page-selectable range too long for `usize`, otherwise the queue's error |
| `VtdRangeFlush.SelectiveIffSmallCover` | src/arch/x86_64/intel/ctrl.rs:1492-1507 | a range inside the address space is invalidated page by page if and only if pages can be selected and some set of at most 32 allowed blocks covers it |
| `VtdRangeFlush.SelectiveInBytes` | src/arch/x86_64/intel/ctrl.rs:1479-1507 | the same in bytes: scope Leaf if and only if the hardware selects pages of that many bytes, the range starts at a multiple of them, and at most 32 blocks the capability allows cover it |
| `VtdRangeFlush.RangeBytes` | src/arch/x86_64/intel/ctrl.rs:1503-1521 | a range of `count` pages of a size is `count` times that size in bytes, removed exactly inside the address space and completely in any case |
| `VtdRangeFlush.OtherDomainsKept` | src/arch/x86_64/intel/ctrl.rs:1467-1523 | descriptors of one domain leave every cached page of other domains |
| `QueuedFlush.DecodePadded` | src/arch/x86_64/intel/ctrl.rs:2016-2019 | the hardware reads back from a padded ring entry the descriptor that was handed to the queue |
| `QueuedFlush.ReadsWhatWasSubmitted` | src/arch/x86_64/intel/ctrl.rs:2004-2020 | with no other call in flight on a drained ring, when the submits of a list of descriptors have all returned Ok the hardware has read exactly those, in order |
| `QueuedFlush.PlannedFlushThroughRing` | src/arch/x86_64/intel/ctrl.rs:1509-1523 | so the planned submits of a range invalidation have removed exactly the range, with nothing assumed about the queue |
| `QueuedFlush.SubmitsComplete` | src/arch/x86_64/intel/ctrl.rs:2004-2020 | a run in which the submits of a given list of descriptors all return Ok exists for every list |
| `VtdRangeFlush.IotlbUnit.InvalidatePage` | src/arch/x86_64/intel/ctrl.rs:1448-1465 | after Ok nothing is left of the page of 0x1000, 0x20_0000 or 0x4000_0000 bytes that holds the address, but fresh loads; scope Leaf exactly if the hardware selects pages of that many bytes, and then nothing else is removed; other sizes remove the whole domain; never another domain |
| `VtdRangeFlush.IotlbUnit.FlushPageByPage` | src/ctrl.rs:465-472 | for every start, page size and count: the default loop removes exactly the page at each step when every page was done, which for 4 KiB pages is the range up to the end of the address space, and no other domain loses an entry |
| `ContextCache.FromDomainDecodes` | src/arch/x86_64/intel/ctrl.rs:367-379 | a domain's context entry decodes to that domain: tag and width always, root if and only if it is below 2^52; all other bits are 0 |
| `ContextCache.ContextDescriptorHits` | src/arch/x86_64/intel/ctrl.rs:2028-2033 | the words of the submitted context descriptor apply to the client's cached entries, and on hardware that compares domain ids only to those cached under id 0 |
| `ContextCache.RebindCoherence` | src/arch/x86_64/intel/ctrl.rs:1525-1567 | with loads and evictions between any two accesses, torn words included: after the two stores and two invalidations only the client's entry has changed; and if the context descriptor covers every entry that can be cached and is not the new one, no cached context entry of the client differs from the table and no translation of the active tag was filled through another entry |
| `ContextTheorems.CoherentIffDescriptorCovers` | src/arch/x86_64/intel/ctrl.rs:1540-1549 | from any caches, that coherence holds in every run if and only if the descriptor covers every such entry |
| `ContextTheorems.CoherentIffUntagged` | src/arch/x86_64/intel/ctrl.rs:1540-1549 | where everything cached came from the current entry: if and only if the hardware does not compare domain ids, or neither the old nor the torn entry is walkable, different from the new one and tagged other than 0 |
| `ContextTheorems.UnbindCanKeepEntry` | src/arch/x86_64/intel/ctrl.rs:1552-1567 | on hardware that compares domain ids, unbinding a client of a domain whose tag is not 0 can leave its old entry cached after the call, with a translation of the active tag filled through it |
| `ContextTheorems.NeverStaleIffBothCover` | src/arch/x86_64/intel/ctrl.rs:1540-1549 | no run leaves a translation of any tag filled through an older or torn entry, if and only if each such entry that the hardware walks carries the invalidated tag and is dropped by the context descriptor |
| `ContextTheorems.OrdinaryRebinds` | src/arch/x86_64/intel/ctrl.rs:391-410 | for every binding and unbinding of one controller the exact condition, in what the hardware walks, whether it compares domain ids, and the domain's tag |
| `ContextTheorems.FirstBindCleanIff` | src/arch/x86_64/intel/ctrl.rs:2343-2349 | binding a disabled client to a domain whose tag is not 0 leaves nothing stale if and only if the hardware does not walk the entry as it is between the two stores, with width code 0 |
| `ContextTheorems.UnbindCleanIff` | src/arch/x86_64/intel/ctrl.rs:1552-1567 | unbinding a client from a domain that the hardware walks leaves no stale translation of any tag if and only if domain ids are not compared or the tag is 0 |
| `QueuedBind.RebindThroughRing` | src/arch/x86_64/intel/ctrl.rs:2003-2021 | with no other call in flight and everything read before, both Ok: the hardware has read the context descriptor and then the domain descriptor, and executing them has dropped the client's entries that the first covers and the translations of the invalidated tag, and nothing else |
| `ContextBind.VtdUnit.BindContext` | src/arch/x86_64/intel/ctrl.rs:1525-1550 | refused exactly in the cases of `RefusedWith`, with that error and no change; otherwise only the client's entry changes, and the hardware decodes from it nothing present, pass-through where the unit has it, or the domain's tag, width and root; after Ok nothing stale is cached for it under the active tag if the context descriptor covers what can be cached |
| `ContextBind.VtdUnit.UnbindContext` | src/arch/x86_64/intel/ctrl.rs:1552-1567 | the same for clearing the client's entry: nothing present is left |
| `ContextBind.BindingRoutes` | src/arch/x86_64/intel/ctrl.rs:391-410 | the entry written for Abort, PassThrough and a domain, by what the hardware decodes from it |
| `ContextBind.RefusalMeans` | src/arch/x86_64/intel/ctrl.rs:1530-1547 | each refusal, as an if-and-only-if over the binding and the unit, in the order of the checks |
| `ContextBind.VtdUnit.Reroute` | src/arch/x86_64/intel/ctrl.rs:2343-2385 | the two words are stored low first, then the context and the domain descriptor are submitted, with hardware activity around each: a run of the cache protocol |
| `ContextBind.VtdUnit.InstallContextTable` | src/arch/x86_64/intel/ctrl.rs:1365-1374 | a misaligned table is refused with InvalidAddress and nothing changes; otherwise the bus's root entry points at the table and entries of other buses are unchanged |
| `ContextBind.VtdUnit.HardwareFindsTables` | src/arch/x86_64/intel/ctrl.rs:1365-1374 | through the root table the hardware finds exactly the installed entries, as long as the tables are below 2^52 |
| `ContextBind.StoreIsTableUpdate` | src/arch/x86_64/intel/ctrl.rs:2377-2385 | storing a client's entry in memory is the update of its bus's table, if no two buses have one table |
| `ContextBind.SourceIsInjective` | src/arch/x86_64/intel/ctrl.rs:2169-2171 | clients of one segment share an entry only if they are the same client |
| `ContextBind.SourceFields` | src/arch/x86_64/intel/ctrl.rs:2169-2171 | a requester id gives back the client's bus, device and function |
| `RequesterLookup.RootEntryLeadsToTable` | src/arch/x86_64/intel/ctrl.rs:310-341 | a root entry leads the hardware to its context table if and only if the table is below 2^52; all other bits are 0 |
| `RequesterLookup.EntriesAreApart` | src/arch/x86_64/intel/ctrl.rs:279-287 | two requesters read one context entry if and only if they have one device and function and their buses share a table |
| `RequesterLookup.WritesAreLocalIffOwnTables` | src/arch/x86_64/intel/ctrl.rs:2377-2385 | rewriting one client's entry reroutes no other client if and only if no two present buses share a table |
| `BdfRanges.UnionIsTheCanonicalForm` | src/firm/pcie.rs:242-255 | the reference union is the one sorted, merged list for the union of the two sets |
| `BdfRanges.CanonicalUnique` | src/firm/pcie.rs:242-255 | two sorted, merged lists that denote one set are equal |
| `BdfRanges.InsertionOrderIrrelevant` | src/firm/pcie.rs:280-315 | insertions of the same ranges in any order and multiplicity give the same windows |
| `BdfRangeSets.BdfRangeSet.Insert` | src/firm/pcie.rs:280-315 | succeeds exactly when the canonical form of the union fits, and then stores it; otherwise Full and nothing changes; range errors do not occur |
| `BdfRangeSets.BdfRangeSet.InsertAt` | src/firm/pcie.rs:317-333 | Full exactly at capacity, without change; otherwise the range is added and merged |
| `BdfRangeSets.BdfRangeSet.MergeAround` | src/firm/pcie.rs:335-353 | merging restores the invariant and keeps the set, and never fails |
| `BdfRangeSets.BdfRangeSet.MergePair` | src/firm/pcie.rs:355-373 | joins two neighbours exactly when they overlap or touch |
| `BdfRangeSets.BdfRangeSet.Remove` | src/firm/pcie.rs:375-383 | removes one window in place and clears the freed slot |
| `BdfRangeSets.FitsIffSomeCanonicalFormFits` | src/firm/pcie.rs:280-315 | insertion fits if and only if some canonical list of at most N windows denotes the union |
| `BdfRangeSets.StructEqualityIsSetEquality` | src/firm/pcie.rs:242-255 | whole-struct equality, unused slots included, is equality of the sets |
| `Iort.NodeCursor.Next` | src/arch/aarch64/iort.rs:888-927 | yields the node at the cursor; a broken length ends the iteration where it stands, any other node is stepped over by its length |
| `Iort.LookUpNode` | src/arch/aarch64/iort.rs:283-297 | the first node at exactly the reference, None outside the node array, or the first error before it |
| `Iort.ScanMappings` | src/arch/aarch64/iort.rs:594-622 | the scan with its fallback for the last id of a range |
| `Iort.HeaderRoundTrip` | src/arch/aarch64/iort.rs:644-665 | a node header written in a table is read back |
| `Iort.MappingRoundTrip` | src/arch/aarch64/iort.rs:1107-1129 | an ID mapping written in a table is read back |
| `Iort.NodeRoundTrip` | src/arch/aarch64/iort.rs:624-804 | a node written in a table is read back if and only if its contents are complete for its type byte: kind, place, mappings, and the segment of a root complex |
| `Iort.RootComplexRoundTrip` | src/arch/aarch64/iort.rs:709-722 | a root complex written with its segment is read back with it |
| `Iort.KindTellsType` | src/arch/aarch64/iort.rs:988-1003 | the kind of a node and its type byte tell each other |
| `Iort.MappingsAccepted` | src/arch/aarch64/iort.rs:804-836 | a node's mappings are readable exactly if there are none or they lie after its header inside it, and mapping i is the one 20 i bytes on |
| `Iort.ReferenceBounds` | src/arch/aarch64/iort.rs:283-297 | references before or past the node array lead nowhere, and a misplaced array is an error |
| `IortWalk.MapIdToKind` | src/arch/aarch64/iort.rs:455-484 | ends after at most node_count steps; returns what the walk with no bound returns if that stops within them, and the cycle error if and only if it does not; from a table node the answer is exact unless a node is revisited, and the cycle error means that one was |
| `IortWalk.FirstStepMeans` | src/arch/aarch64/iort.rs:463-479 | where a walk ends at once: at the target kind, with the error of its mappings or reference, or with no answer |
| `IortWalk.ArrivesNext` | src/arch/aarch64/iort.rs:463-479 | a table node whose lookup leads to a node of the target kind: the answer is that node with the looked-up id |
| `IortWalk.SingleMappingArrives` | src/arch/aarch64/iort.rs:1077-1101 | a table node whose only mapping is single: every id arrives with the output base at the four kinds that may have one, and there is no answer at others |
| `IortWalk.WalkWithin` | src/arch/aarch64/iort.rs:455-484 | the same for the loop with any budget |
| `IortWalk.ExactWithoutRevisit` | src/arch/aarch64/iort.rs:455-484 | from a table node, a walk that stops before it revisits a node gets the answer of the walk with no bound |
| `IortWalk.CycleMeansRevisit` | src/arch/aarch64/iort.rs:480-483 | from a table node, the cycle error means that some node was visited twice |
| `IortWalk.ClosedWalkIsReported` | src/arch/aarch64/iort.rs:480-483 | a walk that returns to one node with one id never stops, and is reported as a cycle |
| `IortFalseCycle.ArrivingWalkReportedAsCycle` | src/arch/aarch64/iort.rs:463-483 | on a concrete table of two nodes the walk with no bound arrives after two steps and the answer is the cycle error |
| `IortWalk.WalkWithoutRevisitIsShort` | src/arch/aarch64/iort.rs:283-297 | pigeonhole: a walk over pairwise different table nodes has at most node_count places |
| `Walks.Pigeonhole` | src/arch/aarch64/iort.rs:455-484 | a walk of any partial step over pairwise different keys is no longer than the set of keys |
| `IortLookup.ScanChooses` | src/arch/aarch64/iort.rs:594-622 | for every list, kind and id: the first mapping that holds the id before its end is used; if there is none, the last one that ends at the id; otherwise there is no translation. A single mapping holds every id at four kinds of node and gives its output base |
| `IortLookup.TranslateMeans` | src/arch/aarch64/iort.rs:1077-1101 | the output of a mapping, single or range, and when it has one |
| `IortLookup.SingleMappingLookup` | src/arch/aarch64/iort.rs:1077-1101 | a single mapping gives its output base and reference for every id at a named component, root complex, SMMUv3 or PMCG, and nothing elsewhere |
| `IortLookup.TranslatedIffApplies` | src/arch/aarch64/iort.rs:594-622 | an id is translated if and only if some mapping applies to it, by one that applies |
| `IortLookup.ScanResolves` | src/arch/aarch64/iort.rs:594-622 | for lists in which at most one mapping holds the id inside and at most one ends at it, single mappings included: the one inside wins, the one ending there is used if there is none |
| `IortLookup.OrderIrrelevant` | src/arch/aarch64/iort.rs:594-622 | for such lists the result depends only on which mappings there are, not on their order |
| `IortLookup.SharedEndpoint` | src/arch/aarch64/iort.rs:607-616 | an id shared by the end of one range and the start of another goes to the range that starts there |
| `IortLookup.TranslatedIffCovered` | src/arch/aarch64/iort.rs:1077-1088 | an id is translated if and only if some range covers it, by a range that covers it |
| `IortRoots.InputBdfRange` | src/arch/aarch64/iort.rs:1058-1075 | never fails; all requesters for a single mapping, the exact range inside the 16-bit space, otherwise none |
| `IortRoots.FindRootForSegment` | src/arch/aarch64/iort.rs:393-405 | the last root complex of the segment, or the first error |
| `IortRoots.RootOfSegment` | src/arch/aarch64/iort.rs:393-405 | the root found is a root complex of that segment and the node its own offset refers to |
| `IortRoots.RootIsLast` | src/arch/aarch64/iort.rs:393-405 | no root complex of the segment in the table lies after the one found, and none is missed |
| `IortRoots.RootComplexBdfRanges` | src/arch/aarch64/iort.rs:407-425 | the canonical windows of the mappings' ranges; an error exactly if some insertion does not fit 16 windows or the table is broken |
| `IortRoots.RootComplexRequesterMatch` | src/arch/aarch64/iort.rs:427-453 | Covered, Unresolved or NotCovered over the mappings of the segment's root |
| `IortRoots.VerdictMeans` | src/arch/aarch64/iort.rs:427-453 | Covered if some mapping takes the requester in; Unresolved if none does and some mapping's range leaves the requester space; otherwise NotCovered |
| `IortRoots.QueriesMean` | src/arch/aarch64/iort.rs:407-453 | for a root complex with given mappings: a set is returned if and only if it fits 16 windows and some range is known, it holds exactly the requesters taken in, and the match is Covered for exactly those |
| `IortRoots.NoRootNoAnswer` | src/arch/aarch64/iort.rs:407-453 | with no root complex of the segment both queries answer None, and its error is passed on |
| `IortRoots.RangesAgreeWithMatch` | src/arch/aarch64/iort.rs:407-453 | a returned set holds a requester if and only if the match says Covered |
| `IortRoots.TranslatingIsNotRejected` | src/arch/aarch64/iort.rs:427-453 | a requester that translates at its root is never NotCovered |
| `IortRoots.ArrivingIsNotRejected` | src/arch/aarch64/iort.rs:486-499 | a requester whose walk arrives at another kind of node is never NotCovered at its root |
| `IortRoots.MapRequesterToKind` | src/arch/aarch64/iort.rs:486-499 | the walk from the root of the requester's segment, or its error |
| `IvrsEntries.WalkDeviceEntries` | src/arch/x86_64/amd/ivrs.rs:479-618 | ends on any bytes, reads only the block, and passes on the entries of the reference walk up to its error |
| `IvrsEntries.WalkIsLocal` | src/arch/x86_64/amd/ivrs.rs:494-613 | the walk depends on nothing but the bytes of its window |
| `IvrsEntries.RoundTrip` | src/arch/x86_64/amd/ivrs.rs:494-613 | any list of well-formed entries, ranges as start and end records, written anywhere in a table is walked back with no error |
| `IvrsEntries.WalkedAreWellFormed` | src/arch/x86_64/amd/ivrs.rs:526-613 | on any bytes, every entry passed on is well formed, with ranges not reversed |
| `IvrsEntries.WalkIsNormal` | src/arch/x86_64/amd/ivrs.rs:494-613 | writing out what any walk passed on and walking it again gives the same entries |
| `IvrsEntries.RecordFraming` | src/arch/x86_64/amd/ivrs.rs:494-523 | the size of each record by its type byte; types above 0xf0 end the walk, and a record that does not fit is an error |
| `IvrsEntries.IdleRecords` | src/arch/x86_64/amd/ivrs.rs:526-613 | records of unknown type and range ends with no range open change nothing; a range end before its start is the only entry error |
| `Ivrs.BlocksTile` | src/arch/x86_64/amd/ivrs.rs:629-664 | block iteration tiles the table from byte 48 to its end, or tiles up to a block whose error it reports |
| `Ivrs.BlockCursor.Next` | src/arch/x86_64/amd/ivrs.rs:629-664 | yields the block at the cursor and steps over it; a broken frame ends the iteration |
| `Ivrs.ReadIvhd` | src/arch/x86_64/amd/ivrs.rs:396-459 | the parse of an IVHD block: its length check, its entries' error, its register window, and whether its entries include everything or name something |
| `Ivrs.IvhdRoundTrip` | src/arch/x86_64/amd/ivrs.rs:396-459 | an IVHD block written in a table is read back: place, registers, and whether it includes everything or names something |
| `Ivrs.BlockAccepted` | src/arch/x86_64/amd/ivrs.rs:380-476 | a block with a sound header is accepted exactly if its fixed part, its entries and its windows are sound, in literal sizes |
| `Ivrs.SecondWalkIsClean` | src/arch/x86_64/amd/ivrs.rs:315-368 | the query's walk over a unit that does not include everything neither fails nor meets an entry for everything |
| `Ivrs.IvhdBdfRanges` | src/arch/x86_64/amd/ivrs.rs:315-368 | the canonical windows of the units at the base, which hold exactly the requesters that some entry of some such unit stands for; None if there is no unit, one includes everything or nothing is named; an error exactly if 16 windows do not suffice or the table is broken |
| `Ivrs.RangesAreNamed` | src/arch/x86_64/amd/ivrs.rs:340-362 | a returned set holds a requester if and only if some entry of some unit at the base stands for it: its device, or every device from start to end inclusive, never an alias source; and no such unit includes everything |
| `Ivrs.SetReturnedIff` | src/arch/x86_64/amd/ivrs.rs:315-368 | a set is returned if and only if no block is broken, what is named fits 16 windows, no unit at the base includes everything and some entry stands for a requester |
| `Ivrs.QueryRoundTrip` | src/arch/x86_64/amd/ivrs.rs:315-368 | from bytes to answer: a table with one written IVHD block of type 0x10, 0x11 or 0x40 answers with exactly the requesters its entries stand for, unless one is for all devices; 16 entries always fit |
| `Dmar.WalkDeviceScopes` | src/arch/x86_64/intel/dmar.rs:761-819 | ends on any bytes and passes on the scopes of the reference walk up to its error |
| `Dmar.ScopesRoundTrip` | src/arch/x86_64/intel/dmar.rs:761-819 | scopes written in a table are walked back with no error |
| `Dmar.ScopeAccepted` | src/arch/x86_64/intel/dmar.rs:774-800 | a scope is accepted exactly if it has its header, fits and has a path of whole hops |
| `Dmar.StructureAccepted` | src/arch/x86_64/intel/dmar.rs:614-758 | a structure with a sound header is accepted exactly if its fixed part and its window or range are sound, in literal sizes |
| `Dmar.DrhdRoundTrip` | src/arch/x86_64/intel/dmar.rs:636-657 | a DRHD written in a table is read back, with its segment, window, flag and scopes |
| `Dmar.BdfFields` | src/arch/x86_64/intel/dmar.rs:989-1000 | the requester id of a single-hop path gives back bus, device and function |
| `Dmar.StructureCursor.Next` | src/arch/x86_64/intel/dmar.rs:830-866 | yields the structure at the cursor and steps over it; a broken frame ends the iteration |
| `Dmar.DrhdBdfRanges` | src/arch/x86_64/intel/dmar.rs:405-445 | the canonical windows of the scopes at the base; None if there is no unit, an unresolved scope or nothing named; an error exactly if 16 windows do not suffice or something is broken, in the order met |
| `Dmar.DrhdRequesterMatch` | src/arch/x86_64/intel/dmar.rs:486-541 | the verdict of the last unit at the base: Covered for a unit for everything in the requester's segment or a scope of the requester, Unresolved if none is and some scope has no requester, otherwise NotCovered; or the first error |
| `Dmar.MatchMeans` | src/arch/x86_64/intel/dmar.rs:486-541 | the match over any units: it fails exactly if a walk fails or a structure is broken, with the first such error; None exactly if there is no unit; otherwise the last unit decides |
| `Dmar.MatchRoundTrip` | src/arch/x86_64/intel/dmar.rs:486-541 | from bytes to verdict, for a table with one written DRHD and any requester |
| `Dmar.SetReturnedIff` | src/arch/x86_64/intel/dmar.rs:405-445 | a set is returned if and only if nothing is broken, it fits 16 windows, some scope of a unit at the base has a requester and each has; it holds exactly those |
| `Dmar.SetRoundTrip` | src/arch/x86_64/intel/dmar.rs:405-445 | from bytes to set, for a table with one written DRHD |
| `Dmar.RangesAgreeWithMatch` | src/arch/x86_64/intel/dmar.rs:405-541 | with one unit at the base in the requester's segment, a returned set holds a requester if and only if the match says Covered, and otherwise it says NotCovered |
| `Dmar.OtherSegmentNotCovered` | src/arch/x86_64/intel/dmar.rs:501-504 | a sole unit in another segment is NotCovered for every requester |

## Left out

- Memory ordering weaker than sequential consistency, and ticket counters that wrap at `2^64`.
- Volatile pointers, MMIO registers, `without_interrupts`, ACPI header and checksum validation: memory is modelled as arrays, sequences and maps, and tables are taken as validated bytes.
- `kore_memory`, `memory_addr` and `acpi` are not part of this model.
- Page-table entry formats and paging metadata, SMMUv3 and RISC-V units: bit packing over a walker that is not in the repository.
- Interrupt-remapping entries, MSI messages, capability getters and fault decoding: finite bit-field encodings.
- Address, info, capability and error wrappers; `VtdDomainController`'s delegation to its page table.
- `DescriptorTableBacking`: the validation and addressing of `CommandQueueBacking` again, with another alignment.
- Root-table, context-table and queue registers, and enabling translation: straight-line register writes.
- IORT ITS groups, SMMU interrupts, RMR descriptors and `rmr_bdf_ranges`; DMAR `rmrr_bdf_ranges`, SATC, RHSA and ANDD queries; IVMD contents: folds of the same shape over other records.
- Tooling under `tools/`: code generation, files and network.
- CommandQueues.CommandQueue.AdvanceRetired: takes finitely many spurious failures of the weak compare-exchange, since with infinitely many the loop of the source does not end.
- CommandQueues.CommandQueue.Submit: keeps the queue's memory as one byte sequence per entry; that the entries are disjoint byte ranges of the mapped memory is `CommandBacking.EntriesApart`, and that the flat byte loop writes exactly one of them is `CommandBacking.WriteSlot`.
- Ivrs.IvhdBdfRanges: walks the entries of a block and then inserts the ranges they name, where the source inserts from inside the walk; by `Ivrs.SecondWalkIsClean` that walk cannot fail.
- Dmar.DrhdBdfRanges: collects the scopes before a failing one and inserts them before it reports the failure, which is what the source's callback order comes to.
- Iort.ParseNode: keeps of each node its header and, for a root complex, its segment.
