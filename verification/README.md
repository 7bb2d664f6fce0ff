# Verified models of an AMP stack

The repository bundles a userspace stack for asymmetric multiprocessing: OpenAMP (virtio, rpmsg,
remoteproc), libmetal, libsysfs and libhugetlbfs. This project models the parts of it that are
protocols, allocators or in-place algorithms, and proves what they promise over every input, every
run and every interleaving. Each module says which code it models; the code keeps its own form:
state that is updated in place is a class or an array, concurrent code is a machine whose steps are
single shared accesses, pure code is functions.

`dafny verify dfyconfig.toml` checks everything.

| modules | system |
|---|---|
| Options, Counting, Bits | optional values; remainders and pigeonhole counting; bitwise operations |
| VirtqueueProtocol, VirtqueueInvariant, VirtqueueSteps, VirtqueueTheorems, VirtqueueCode, VirtqueueWitness | the split virtqueue (section 2.7 of VIRTIO 1.2) between a driver and a device |
| RingOwnership, RpmsgBuffers, RpmsgVirtioCode, RpmsgWitness, RpmsgHold, RpmsgEndpoints | rpmsg over virtio in driver role: buffer ownership, hold counter, endpoints and addresses |
| Mutex, Condition | the futex mutex and the condition variable of libmetal on Linux |
| Dlist, DlistSort, MergeTheory | the doubly linked list of libsysfs and its merge sort |
| SharedFile, Morecore | the shared hugepage file and the hugepage heap of libhugetlbfs |
| IoRegion | address translation of a libmetal I/O region |
| ElfFormat, ElfLayout, ElfLoader, RemoteprocLoad | the ELF structures, the resumable ELF loader and its client |

How the virtqueue modules fit together: VirtqueueProtocol gives each party's shared accesses as
actions, "write the ring slot" and "advance the index" being two; a run is any interleaving, and a
record beside the state, which no action reads, says what an observer saw. VirtqueueTheorems speaks
of all runs. VirtqueueCode is the code on arrays, each call, made while the other party stands between
calls, proved to be exactly a sequence of these actions. RpmsgBuffers puts the rpmsg calls on top of two such queues whose peer acts at any point,
and RpmsgVirtioCode is that code on top of the virtqueue objects.

## Where the code does less than it promises

Each has a lemma that says exactly when it fails and one with a concrete failing run or input.

- Notifications with event indices: a kick is silent when the entries since the previous kick,
  counted in sixteen bits, do not reach back to the entry asked for (KickDecision,
  NotificationCanBeLost).
- Condition variable: a thread a signal has freed blocks all the same if a multiple of 2^32 wakeups fall
  between its load and its futex call (FreedExactly, BlockedOnlyBySlipping, WakeupsCanBeLost).
- Shared file: a child killed by a signal has exit status 0, so its unprepared file is renamed into
  place (FinalIsPrepared, KilledChildPublishesUnprepared); an open of the final name that fails for
  another reason than its absence leads to a second preparation (OverwritesExactlyIfMisled,
  MisledProcessPreparesAgain); and an owner whose descriptor is 0 does not remove the temporary name,
  which then stays for ever (TmpIsRemovedExactly, StaleForEver, DescriptorZeroLeavesTmp).
- Morecore: a failed munmap while shrinking leaves handed-out bytes above heaptop (CleanExactly,
  FailedUnmapIsDirty); and a heap that has shrunk to nothing can grow again elsewhere, so that the
  growth does not return the previous heaptop (GrowthIsFresh, RegrowthCanMove). A failed munmap that was
  to give back everything and less than a page more leaves heaptop below heapbase (CallGives,
  TopCanFallBelowBase).
- I/O region: metal_io_phys_to_offset of METAL_BAD_PHYS answers with an offset out of range instead
  of METAL_BAD_OFFSET when the first offset tried is out of range (SearchIsSound, BadPhysIsAnswered);
  and in a paged region that reaches into the last page of the address space the search for an address
  the table does not have can go around for ever (PhysToOffsetLoop, SearchNeverEnds, EndlessRegion).
  A region without a virtual address answers metal_io_virt_to_offset for as many addresses as it has
  bytes (AnswersAreRightExactly, UnmappedRegionAnswers).
- dlist_sort_custom: between 2^31 and 2^32 nodes it never ends, since the width wraps to 0 and a pass
  of width 0 moves nothing (SortEndsExactly, SortLoopNeverEnds, MergeTurn); with 2^32 nodes or one more
  the step count wraps and it stops after the first pass (SortLoopWraps, WrappedSortLeavesUnsorted).
  Beyond that the outcome depends on the data; SortLoop gives it.
- rpmsg_get_address never reports exhaustion: with all bits set it returns a taken address
  (CreateAnyKeeps, AddressCanBeTakenTwice).
- Hold counter: with 2^16 holders at a time the balancing release is refused (ReturnedWhenBalanced,
  TooManyHolders), and with one more a release returns the buffer while others hold it
  (ReturnedWhileHeld).
- TX buffers: more of them than descriptors can be carved when several are taken at once, and then a
  send can find the ring full (TakeKeepsRoom, TooManyRunInto, SendCanFindRingFull).
- TX payload length: with a buffer the peer gave back it comes from the length the peer reported, and is
  right exactly if that covers the header and fits the buffer (LengthsComeBack, PayloadFits).
- ELF loader: the segment counter has eight bits, so a loadable segment at index 255 or later that is
  not the last program header makes the emission endless (EmitIsNext, EmissionNeverEnds,
  CrowdedImageIsOutside); program headers larger than its structure are read at the wrong places
  (ReadsTheFormat, WideEntriesAreMisread).
- remoteproc_load: a loadable segment at RPROC_LOAD_ANYADDR is not written, and one without file bytes
  ends the loading there, with success (WrittenIsAll, AnywhereStopsTheLoad).

## Model

| member | source | states |
|---|---|---|
| `VirtqueueTheorems.InitialKeeps` | openamp/open-amp/lib/virtio/virtqueue.c:478-495 | a queue as virtqueue_create leaves it on zeroed indices satisfies the protocol invariant |
| `VirtqueueTheorems.StepKeeps` | openamp/open-amp/lib/virtio/virtqueue.c:80-322 | every shared access of either party keeps the invariant: free list, live chains, both rings, saved cookies, wrapped indices, notification state |
| `VirtqueueTheorems.RunKeeps` | openamp/open-amp/lib/virtio/virtqueue.c:80-322 | the invariant holds after every prefix of every interleaved run of driver and device |
| `VirtqueueTheorems.EnabledIsSafe` | openamp/open-amp/lib/virtio/virtqueue.c:80-269 | in a reachable state whatever the API lets a party do indexes no table out of bounds |
| `VirtqueueTheorems.ChainsAreRequests` | openamp/open-amp/lib/virtio/virtqueue.c:80-133 | the chains of a run, in publication order, are the requests of the driver's calls in call order |
| `VirtqueueTheorems.TakesAreFifo` | openamp/open-amp/lib/virtio/virtqueue.c:203-232 | the k-th successful virtqueue_get_available_buffer returns the head and first buffer of the k-th request, never before it was published, and finds nothing only when all published chains were taken, however often the 16-bit indices wrap |
| `VirtqueueTheorems.TakenChainsAreWhole` | openamp/open-amp/lib/virtio/virtqueue.c:385-427 | until the driver gets a taken chain back, following NEXT from its head reads exactly the request's buffers in order, with their lengths and WRITE flags |
| `VirtqueueTheorems.DescriptorsArePartitioned` | openamp/open-amp/lib/virtio/virtqueue.c:385-471 | following next from vq_desc_head_idx meets exactly vq_free_cnt distinct descriptors and then the terminator; every descriptor is one of these or lies on exactly one live chain |
| `VirtqueueTheorems.DebugAssertionsHold` | openamp/open-amp/lib/virtio/virtqueue.c:96-118 | the debug build's assertions never fail: valid head index or terminator, and no cookie at the head of a new chain |
| `VirtqueueTheorems.CookiesComeBack` | openamp/open-amp/lib/virtio/virtqueue.c:135-172 | the j-th successful virtqueue_get_buffer returns the cookie of the request behind the j-th chain the device returned, and no chain is returned twice |
| `VirtqueueTheorems.LengthsComeBack` | openamp/open-amp/lib/virtio/virtqueue.c:149-168 | over every run the length read with the j-th chain that comes back is the one the device gave to its j-th return |
| `VirtqueueTheorems.KickDecision` | openamp/open-amp/lib/virtio/virtqueue.c:608-649 | exactly when a kick notifies a side that enabled notifications at count p: iff the entries published since the last kick, modulo 2^16, reach back to p (always in flag mode) |
| `VirtqueueTheorems.NeedEventOfCounts` | openamp/open-amp/lib/include/openamp/virtio_ring.h:207-212 | the 16-bit event test on wrapped indices equals the test on unbounded counts modulo 2^16 |
| `VirtqueueTheorems.NoLostNotification` | openamp/open-amp/lib/virtio/virtqueue.c:309-322 | after vq_ring_enable_interrupt found nothing pending, the peer's first kick with a new entry notifies, both roles and both modes, while fewer than 2^16 entries lie between kicks |
| `VirtqueueTheorems.WrappedQueueCountIsSilent` | openamp/open-amp/lib/virtio/virtqueue.c:608-649 | with any multiple of 2^16 entries since the last kick, a kick is silent whatever the peer asked for |
| `VirtqueueWitness.NotificationCanBeLost` | openamp/open-amp/lib/virtio/virtqueue.c:608-649 | the bound is needed: a run in which the device enables notifications, 2^16 entries are published, and the first kick after that notifies nobody |
| `VirtqueueTheorems.ArmingTakesEffect` | openamp/open-amp/lib/virtio/virtqueue.c:538-589 | vq_ring_enable_interrupt(vq, 0) returning 0 puts the promise in force at the count it saw, with everything published consumed |
| `VirtqueueTheorems.DisabledKickDecision` | openamp/open-amp/lib/virtio/virtqueue.c:276-307 | exactly when a kick notifies a side that disabled notifications at count p and has not enabled them since: never in flag mode, with event indices iff the entries since the last kick, modulo 2^16, reach back further than a ring before p |
| `VirtqueueTheorems.DisabledIsSilent` | openamp/open-amp/lib/virtio/virtqueue.c:276-307 | so such a side is left alone in flag mode always, and with event indices while the last kick is at most a ring before p and fewer than 2^16 entries follow |
| `VirtqueueInvariant.WrapIsMod` | openamp/open-amp/lib/virtio/virtqueue.c:150-150 | the 16-bit cast of any integer is its remainder modulo 2^16 |
| `VirtqueueInvariant.SlotIsMask` | openamp/open-amp/lib/virtio/virtqueue.c:150-150 | index & (n - 1), bit by bit, is the ring slot, for power-of-two sizes |
| `VirtqueueInvariant.SlotOfWrapped` | openamp/open-amp/lib/virtio/virtqueue.c:150-150 | masking the wrapped 16-bit index gives the ring slot of the unbounded count |
| `Bits.PowerTest` | openamp/open-amp/lib/virtio/virtqueue.c:56-57 | num_descs & (num_descs - 1), bit by bit, is 0 exactly for powers of two |
| `VirtqueueInvariant.AvailFits` | openamp/open-amp/lib/virtio/virtqueue.c:502-531 | published and not yet taken chains never exceed the ring size, so no avail slot is overwritten |
| `VirtqueueInvariant.UsedFits` | openamp/open-amp/lib/virtio/virtqueue.c:234-269 | returned and not yet reaped chains never exceed the ring size, so no used slot is overwritten |
| `VirtqueueSteps.FreedIsLast` | openamp/open-amp/lib/virtio/virtqueue.c:434-471 | walking the NEXT flags from a live chain's head ends at its last descriptor after exactly its length |
| `VirtqueueCode.Virtqueue.CreateStatus` | openamp/open-amp/lib/virtio/virtqueue.c:54-58 | the checks, with their bit test, accept exactly the powers of two that fit sixteen bits, and say which check refused |
| `VirtqueueCode.Virtqueue.constructor` | openamp/open-amp/lib/virtio/virtqueue.c:45-78 | creation with vq_ring_init yields an initial protocol state: all descriptors linked and free |
| `VirtqueueCode.Virtqueue.AddBuffer` | openamp/open-amp/lib/virtio/virtqueue.c:80-133 | errors change nothing; success is exactly the protocol run of one request, and the invariant survives |
| `VirtqueueCode.Virtqueue.RingAddBuffer` | openamp/open-amp/lib/virtio/virtqueue.c:385-427 | the loop over the free list is one fill action per buffer, with NEXT and WRITE flags, and returns the first descriptor left free |
| `VirtqueueCode.Virtqueue.UpdateAvail` | openamp/open-amp/lib/virtio/virtqueue.c:502-531 | slot write then index increment, as the two separate publication actions |
| `VirtqueueCode.Virtqueue.GetBuffer` | openamp/open-amp/lib/virtio/virtqueue.c:135-172 | nothing exactly when the indices agree; otherwise the run of one reap, returning the recorded cookie, the used length and the used slot |
| `VirtqueueCode.Virtqueue.FreeChain` | openamp/open-amp/lib/virtio/virtqueue.c:434-471 | the walk frees the whole chain: its count goes to 0 and its last descriptor leads to the old free list |
| `VirtqueueCode.Virtqueue.GetAvailableBuffer` | openamp/open-amp/lib/virtio/virtqueue.c:203-232 | nothing exactly when the indices agree; otherwise the run of one take, returning what the record says |
| `VirtqueueCode.Virtqueue.AddConsumedBuffer` | openamp/open-amp/lib/virtio/virtqueue.c:234-269 | an index out of range changes nothing; a held head is the run of one return; any other is published all the same, with the exact state after it |
| `VirtqueueCode.Virtqueue.PublishUsed` | openamp/open-amp/lib/virtio/virtqueue.c:245-263 | the used entry goes into the masked slot and the index and queued count advance in sixteen bits |
| `VirtqueueCode.Virtqueue.EnableCallback` | openamp/open-amp/lib/virtio/virtqueue.c:538-589 | event index or flag first, then one more look: returns whether something is pending, else the notification promise holds from here |
| `VirtqueueCode.Virtqueue.DisableCallback` | openamp/open-amp/lib/virtio/virtqueue.c:276-307 | the run of the disarming action in either mode: afterwards the flag is set, or the event index is a ring and one before what the side has consumed |
| `VirtqueueCode.Virtqueue.KickPeer` | openamp/open-amp/lib/virtio/virtqueue.c:309-322 | notifies exactly as vq_ring_must_notify decides on the state before, and resets the queued count |
| `RingOwnership.AddBeginHolds` | openamp/open-amp/lib/virtio/virtqueue.c:97-127 | adding a single buffer adds exactly its cookie to what the queue holds |
| `RingOwnership.ReapReadHolds` | openamp/open-amp/lib/virtio/virtqueue.c:149-165 | getting a buffer takes exactly the returned cookie out of what the queue holds and frees one descriptor |
| `RingOwnership.OtherHolds` | openamp/open-amp/lib/virtio/virtqueue.c:80-322 | no other action of either party moves a cookie |
| `RingOwnership.HeldIsLive` | openamp/open-amp/lib/virtio/virtqueue.c:97-127 | the queue holds a cookie exactly when its chain is being filled, available, at the peer or in the used ring |
| `RingOwnership.FullMeansAllLens` | openamp/open-amp/lib/rpmsg/rpmsg_virtio.c:907-931 | when no descriptor is free every descriptor carries the length all requests carry |
| `RingOwnership.LiveDescriptor` | openamp/open-amp/lib/virtio/virtqueue.c:385-427 | the one descriptor of a live chain has its cookie as address, the queue's length and direction, and no NEXT flag |
| `RpmsgBuffers.MoveKeeps` | openamp/open-amp/lib/rpmsg/rpmsg_virtio.c:109-214 | every call of the rpmsg driver and every access of the peer keeps the ownership invariant |
| `RpmsgBuffers.OneOwner` | openamp/open-amp/lib/rpmsg/rpmsg_virtio.c:74-86 | over every history each carved TX and RX buffer is counted once over queue, application and reclaimer, and no two buffers overlap |
| `RpmsgBuffers.OnePlaceEach` | openamp/open-amp/lib/rpmsg/rpmsg_virtio.c:109-214 | over every history each carved buffer is at exactly one place: with the application, set aside, being added, or on one published chain, in a ring or with the peer as its stage says; nothing else is anywhere |
| `RingOwnership.OneSpot` | openamp/open-amp/lib/virtio/virtqueue.c:97-127 | a cookie the queue holds once is on exactly one chain, the one being filled or a live one |
| `RpmsgBuffers.ReceiveQueueNeverFull` | openamp/open-amp/lib/rpmsg/rpmsg_virtio.c:313-326 | over every history returning an RX buffer and the initial fill never find the ring full, and the length looked up by used-ring slot is r2h_buf_size |
| `RpmsgBuffers.DirectionsAreRight` | openamp/open-amp/lib/rpmsg/rpmsg_virtio.c:109-169 | over every history each descriptor the peer may look at names its buffer; on the receive queue it is writable with r2h_buf_size, on the transmit queue only readable with h2r_buf_size |
| `RpmsgBuffers.CarvedOnlyAtNeed` | openamp/open-amp/lib/rpmsg/rpmsg_virtio.c:182-214 | a TX buffer is carved only with none set aside and everything the peer published as used taken back |
| `RpmsgBuffers.CarvedIsHighWater` | openamp/open-amp/lib/rpmsg/rpmsg_virtio.c:182-214 | over every history as many TX buffers were carved as were in use at one time at most |
| `RpmsgBuffers.RoomExactly` | openamp/open-amp/lib/rpmsg/rpmsg_virtio.c:182-214 | the application's and reclaimed TX buffers fit the free descriptors iff no more buffers were carved than the ring has descriptors |
| `RpmsgBuffers.TakeKeepsRoom` | openamp/open-amp/lib/rpmsg/rpmsg_virtio.c:200-207 | taking a TX buffer keeps that room iff it carves none or the application holds fewer than the free descriptors |
| `RpmsgBuffers.SendNeverFull` | openamp/open-amp/lib/rpmsg/rpmsg_virtio.c:416-464 | with such takes only, enqueueing never finds the ring full |
| `RpmsgBuffers.OneAtATimeNeverFull` | openamp/open-amp/lib/rpmsg/rpmsg_virtio.c:416-464 | in particular when each TX buffer is sent or released before the next is taken |
| `RpmsgBuffers.TooManyRunInto` | openamp/open-amp/lib/rpmsg/rpmsg_virtio.c:182-214 | from any state between calls with more buffers carved than descriptors there is a continuation in which a send finds the ring full |
| `RpmsgWitness.SendCanFindRingFull` | openamp/open-amp/lib/rpmsg/rpmsg_virtio.c:182-214 | and such states are reachable: a history from the start, with rings of one descriptor and two buffers taken, that ends in a send on a full ring |
| `RpmsgVirtioCode.RpmsgVirtio.constructor` | openamp/open-amp/lib/rpmsg/rpmsg_virtio.c:844-888 | the device starts in an initial ownership state |
| `RpmsgVirtioCode.RpmsgVirtio.FillReceiveQueue` | openamp/open-amp/lib/rpmsg/rpmsg_virtio.c:902-932 | the fill loop succeeds iff the pool holds one r2h buffer per descriptor, and then all are in the queue |
| `RpmsgVirtioCode.RpmsgVirtio.FillOneBuffer` | openamp/open-amp/lib/rpmsg/rpmsg_virtio.c:909-930 | one turn is the fill move; it fails only for lack of pool memory |
| `RpmsgVirtioCode.RpmsgVirtio.GetTxPayloadBuffer` | openamp/open-amp/lib/rpmsg/rpmsg_virtio.c:358-414 | a buffer the application did not hold, with one hold in its header; a reclaimed one comes back with the index it was set aside with; the length left after the header, as a 32-bit difference; NULL only when reclaimer, used ring and pool are exhausted |
| `RpmsgVirtioCode.PayloadFits` | openamp/open-amp/lib/rpmsg/rpmsg_virtio.c:411-412 | the payload offered lies inside the buffer iff the length it comes from covers the header and is at most h2r_buf_size |
| `RpmsgVirtioCode.RpmsgVirtio.GetTxBuffer` | openamp/open-amp/lib/rpmsg/rpmsg_virtio.c:182-214 | reclaimed first, then used ring, then pool: the moves made, and a buffer the application did not already hold, with h2r_buf_size or the length the peer reported; NULL only when all three are exhausted |
| `RpmsgVirtioCode.RpmsgVirtio.CarveTxBuffer` | openamp/open-amp/lib/rpmsg/rpmsg_virtio.c:202-207 | a new buffer only with a free descriptor and room in the pool |
| `RpmsgVirtioCode.RpmsgVirtio.SendNocopy` | openamp/open-amp/lib/rpmsg/rpmsg_virtio.c:416-464 | enqueueing hands the buffer to the queue; it fails only when more were carved than the ring has descriptors |
| `RpmsgVirtioCode.RpmsgVirtio.ReleaseTxBuffer` | openamp/open-amp/lib/rpmsg/rpmsg_virtio.c:466-490 | the buffer goes to the end of the reclaimer list, its index kept, iff the release finds one hold left; otherwise only its packed word changes |
| `RpmsgVirtioCode.RpmsgVirtio.GetRxBuffer` | openamp/open-amp/lib/rpmsg/rpmsg_virtio.c:227-245 | nothing exactly when the used ring is empty; otherwise a buffer the application did not hold, with its slot and a first hold packed in its header |
| `RpmsgVirtioCode.RpmsgVirtio.HoldRxBuffer` | openamp/open-amp/lib/rpmsg/rpmsg_virtio.c:306-311 | the packed counter goes up by one modulo 2^16 and the index stays; ownership and every other header unchanged |
| `RpmsgVirtioCode.RpmsgVirtio.ReleaseRxBuffer` | openamp/open-amp/lib/rpmsg/rpmsg_virtio.c:328-344 | the buffer goes back to the queue iff the release finds one hold left; otherwise only the packed word changes |
| `RpmsgVirtioCode.RpmsgVirtio.ReturnRxBuffer` | openamp/open-amp/lib/rpmsg/rpmsg_virtio.c:313-326 | returning a receive buffer always succeeds, and is the return move with the length found through the packed index |
| `RpmsgHold.HeldInc` | openamp/open-amp/lib/rpmsg/rpmsg_virtio.c:35-37 | adding to the 32-bit word raises the counter by one modulo 2^16 and keeps the index |
| `RpmsgHold.DecTest` | openamp/open-amp/lib/rpmsg/rpmsg_virtio.c:288-304 | one hold fewer unless there is none, the index kept, and true iff exactly one was left |
| `RpmsgHold.IndexSurvives` | openamp/open-amp/lib/rpmsg/rpmsg_virtio.c:32-45 | the packed index survives every history of holds and releases |
| `RpmsgHold.CounterCounts` | openamp/open-amp/lib/rpmsg/rpmsg_virtio.c:32-45 | the packed counter is one plus holds minus releases if there were never 2^16 holders at a time, and stays below it once there were |
| `RpmsgHold.ReturnedWhenBalanced` | openamp/open-amp/lib/rpmsg/rpmsg_virtio.c:328-344 | the release that balances one plus the holds returns the buffer iff there were never 2^16 holders at a time, and then no other operation up to it does |
| `RpmsgHold.ReturnedOnce` | openamp/open-amp/lib/rpmsg/rpmsg_virtio.c:288-304 | for every word and history: after an operation returned the buffer no further release returns it or changes the word |
| `RpmsgHold.TooManyHolders` | openamp/open-amp/lib/rpmsg/rpmsg_virtio.c:288-304 | a history with 2^16 holders and as many releases, the last of them balancing, in which none returns the buffer |
| `RpmsgHold.ReturnedWhileHeld` | openamp/open-amp/lib/rpmsg/rpmsg_virtio.c:288-304 | a history in which a release returns the buffer while 2^16 holders are left |
| `RpmsgEndpoints.NextClearBit` | openamp/libmetal/lib/include/metal/utilities.h:128-141 | the loop computes the cyclic scan |
| `RpmsgEndpoints.NextClearIsFirst` | openamp/libmetal/lib/include/metal/utilities.h:128-141 | every bit met going cyclically from start to the bit returned is set, and that bit is clear iff some bit is; with all set it is start % max |
| `RpmsgEndpoints.RefCounts` | openamp/open-amp/lib/rpmsg/rpmsg.c:101-118 | over every history refcnt is the registration plus the callbacks in flight |
| `RpmsgEndpoints.ReleasedOnceAndLate` | openamp/open-amp/lib/rpmsg/rpmsg.c:101-118 | an endpoint is released at most once, never while registered or while its callback runs, and as soon as neither holds |
| `RpmsgEndpoints.CreateAnyKeeps` | openamp/open-amp/lib/rpmsg/rpmsg.c:28-40 | allocating any address keeps bits and live addresses matched iff some bit is clear |
| `RpmsgEndpoints.StepKeepsAddresses` | openamp/open-amp/lib/rpmsg/rpmsg.c:289-377 | any step keeps them matched iff it does not ask for an address with the bitmap full |
| `RpmsgEndpoints.AddressesAreUnique` | openamp/open-amp/lib/rpmsg/rpmsg.c:324-377 | over every other history a bit is set exactly when one live endpoint has the address, and addresses from 1024 up are distinct |
| `RpmsgEndpoints.CreateSucceedsExactly` | openamp/open-amp/lib/rpmsg/rpmsg.c:324-363 | an address of the map is refused iff a live endpoint has it, a higher one always, RPMSG_ADDR_ANY and reserved ones never; a refusal changes nothing |
| `RpmsgEndpoints.DestroyFreesAddress` | openamp/open-amp/lib/rpmsg/rpmsg.c:289-300 | the address of a destroyed endpoint is no live endpoint's and can be asked for again |
| `RpmsgEndpoints.ReusedAfterAllOthers` | openamp/open-amp/lib/rpmsg/rpmsg.c:335-341 | over every history an address given to a request for any is given so again only after every other one was given, or found taken, by such a request in between |
| `RpmsgEndpoints.AddressCanBeTakenTwice` | openamp/open-amp/lib/rpmsg/rpmsg.c:28-40 | a history of 129 creations after which two live endpoints have the same address |
| `RpmsgEndpoints.RpmsgDevice.constructor` | openamp/open-amp/lib/rpmsg/rpmsg.c:302-322 | no endpoint and no address taken at the start |
| `RpmsgEndpoints.RpmsgDevice.CreateEpt` | openamp/open-amp/lib/rpmsg/rpmsg.c:324-363 | the status and the new bitmap, scan start and endpoint list for every source address, including the error cases |
| `RpmsgEndpoints.RpmsgDevice.Unregister` | openamp/open-amp/lib/rpmsg/rpmsg.c:289-300 | address bit cleared, endpoint off the list, one reference dropped |
| `RpmsgEndpoints.RpmsgDevice.DecRef` | openamp/open-amp/lib/rpmsg/rpmsg.c:107-118 | released exactly when the count comes to 0 |
| `RpmsgEndpoints.RpmsgDevice.BeginReceive` | openamp/open-amp/lib/rpmsg/rpmsg.c:259-287 | finds the first live endpoint with the address, if any, and counts the callback in |
| `RpmsgEndpoints.RpmsgDevice.EndReceive` | openamp/open-amp/lib/rpmsg/rpmsg_virtio.c:606-607 | counts the callback out, releasing if it was the last reference |
| `Mutex.StepKeeps` | openamp/libmetal/lib/system/linux/mutex.h:61-88 | every atomic operation or futex call of any thread keeps the mutex invariant |
| `Mutex.MutualExclusion` | openamp/libmetal/lib/system/linux/mutex.h:61-88 | over every run of any number of threads at most one owns the mutex, and v is non-zero exactly while one holds it or is between fetch_sub and the store of 0 |
| `Mutex.SleepersAreCovered` | openamp/libmetal/lib/system/linux/mutex.h:68-88 | whenever a thread sleeps some thread holds with v == 2, is about to store 0, owes a wake, or is about to exchange in 2 |
| `Mutex.ReleaseSeesSleepers` | openamp/libmetal/lib/system/linux/mutex.h:82-88 | a release never takes the fast path while others sleep and nobody else is about to act |
| `Mutex.AcquireReturnsHolding` | openamp/libmetal/lib/system/linux/mutex.h:68-80 | over every run a thread that called acquire is at every later point still inside it or has since held the mutex |
| `Mutex.LeavesAcquireOwning` | openamp/libmetal/lib/system/linux/mutex.h:68-80 | the step that leaves acquire is the thread's own, was taken when no thread owned the mutex, and makes it the only owner |
| `Mutex.TakenExactlyWhenFree` | openamp/libmetal/lib/system/linux/mutex.h:61-80 | try_acquire, and each atomic operation of acquire, leaves the thread holding the mutex iff no thread owned it; a failed try_acquire changes nothing |
| `Mutex.UncontendedMakesNoCalls` | openamp/libmetal/lib/system/linux/mutex.h:68-88 | as long as no thread has exchanged in 2, v is at most 1 and nobody enters a futex call or the slow release |
| `Condition.StepKeeps` | openamp/libmetal/lib/system/linux/condition.c:14-40 | every step of every thread keeps the condition-variable invariant, including waiters equal to the threads inside wait |
| `Condition.NoLostWakeup` | openamp/libmetal/lib/system/linux/condition.h:53-73 | over every run, when a signal ends at least one thread that was waiting when it was sent is freed, and when a broadcast ends all of them are, whether or not they had reached the futex |
| `Condition.FreedExactly` | openamp/libmetal/lib/system/linux/condition.c:33-36 | a step leaves a freed thread freed iff it is not that thread's futex call finding the old word after a multiple of 2^32 wakeups |
| `Condition.FreedReturns` | openamp/libmetal/lib/system/linux/condition.c:33-38 | over every run a freed thread is never blocked until its wait has the mutex back, unless it slips in that way |
| `Condition.BlockedOnlyBySlipping` | openamp/libmetal/lib/system/linux/condition.c:33-38 | over every run a freed thread that is blocked later in its wait slipped in between |
| `Condition.BroadcastReleasesAll` | openamp/libmetal/lib/system/linux/condition.h:64-73 | from the broadcast on, no thread that was waiting is blocked in that wait unless it slips |
| `Condition.SignalReleasesOne` | openamp/libmetal/lib/system/linux/condition.h:53-62 | from the signal on, one thread that was waiting is not blocked in that wait unless it slips |
| `Condition.FewWakeupsDoNotSlip` | openamp/libmetal/lib/system/linux/condition.c:28-34 | with fewer than 2^32 wakeups since its load a thread does not slip |
| `Condition.BlocksExactly` | openamp/libmetal/lib/system/linux/condition.c:28-34 | over every run the futex call of a wait blocks iff the signals and broadcasts sent since its load are a multiple of 2^32 |
| `Condition.WaitReturnsLocked` | openamp/libmetal/lib/system/linux/condition.c:28-40 | over every run a thread is inside its wait until it has the mutex back, taken when nobody had it, and compares with the number of signals sent before its load |
| `Condition.WakesExactly` | openamp/libmetal/lib/system/linux/condition.h:53-73 | the futex call of a broadcast wakes every sleeper, that of a signal exactly one if there is one |
| `Condition.WakeupsCanBeLost` | openamp/libmetal/lib/system/linux/condition.c:28-34 | a run of two threads in which 2^32 signals fall between the load and the futex call and the waiter then sleeps with no wake owed |
| `SharedFile.RunKeeps` | openamp/libhugetlbfs/elflink.c:993-1075 | the protocol invariant over every run of racing and crashing processes |
| `SharedFile.OneProcessOwnsTmp` | openamp/libhugetlbfs/elflink.c:1007-1075 | at most one process owns the temporary name, and the name is then its file's |
| `SharedFile.FinalIsPrepared` | openamp/libhugetlbfs/elflink.c:960-992 | the final name, and every descriptor handed out, is a prepared file iff its child was not killed before it finished; always if no child is |
| `SharedFile.OnePreparation` | openamp/libhugetlbfs/elflink.c:960-992 | renames exceed one only by those that overwrite; at most one if opens of the final name fail only for its absence |
| `SharedFile.OverwritesExactlyIfMisled` | openamp/libhugetlbfs/elflink.c:1033-1057 | a rename replaces an existing file iff the process failed to open it while it existed |
| `SharedFile.TmpIsRemovedExactly` | openamp/libhugetlbfs/elflink.c:1017-1075 | over every run, while no process owns the temporary name it is absent unless an owner crashed, failed to unlink it or had descriptor 0 before, and then it is there |
| `SharedFile.StaleForEver` | openamp/libhugetlbfs/elflink.c:1007-1075 | and from then on it stays, nobody prepares again and the final name does not change |
| `SharedFile.DescriptorZeroLeavesTmp` | openamp/libhugetlbfs/elflink.c:1064-1072 | a run in which no system call but fork fails and the temporary name is left behind |
| `SharedFile.ReturnsTheFinalFile` | openamp/libhugetlbfs/elflink.c:1013-1057 | the file a process returns with has the final name at that moment; after a successful preparation and rename it is its own |
| `SharedFile.GivesUpAfterAllAttempts` | openamp/libhugetlbfs/elflink.c:1007-1062 | a process that cannot create the temporary name goes on until it finds the final one or has made exactly SHARED_TIMEOUT attempts |
| `SharedFile.SignalLooksLikeSuccess` | openamp/libhugetlbfs/elflink.c:947-957 | exit status 0 is seen for a clean exit and for every child killed by a signal |
| `SharedFile.KilledChildPublishesUnprepared` | openamp/libhugetlbfs/elflink.c:930-958 | a run in which an unprepared file gets the final name |
| `SharedFile.MisledProcessPreparesAgain` | openamp/libhugetlbfs/elflink.c:1033-1057 | a run in which two preparations are renamed into place |
| `Morecore.Allocator.constructor` | openamp/libhugetlbfs/morecore.c:373-373 | an empty heap at the given address |
| `Morecore.Allocator.Morecore` | openamp/libhugetlbfs/morecore.c:76-227 | each call in terms of the wanted length: growth, refusal, shrink by whole pages, failed unmap, no change |
| `Morecore.CallKeeps` | openamp/libhugetlbfs/morecore.c:76-227 | a call keeps mapsize equal to the length rounded up to a huge page iff it is not a shrink whose munmap fails |
| `Morecore.CallGives` | openamp/libhugetlbfs/morecore.c:76-227 | exactly when a call is refused, and that a refusal changes no length; otherwise what it returns, the new length between the one asked for and a page more, all of it mapped; and exactly when heaptop falls below heapbase |
| `Morecore.KeepsWhatIsInUse` | openamp/libhugetlbfs/morecore.c:158-216 | over every run, up to a failed munmap, a byte handed out and below the length asked for is still mapped and handed out after the call |
| `Morecore.CallKeepsClean` | openamp/libhugetlbfs/morecore.c:191-216 | a call leaves handed-out bytes at or above heaptop iff it is a shrink whose munmap fails |
| `Morecore.RunKeeps` | openamp/libhugetlbfs/morecore.c:76-227 | up to the first such failure of a run mapsize is the length rounded up, and the mapped bytes handed out are exactly those below heaptop |
| `Morecore.CleanExactly` | openamp/libhugetlbfs/morecore.c:76-227 | and the call after that keeps memory above heaptop fresh, and mapsize rounded, iff it does not fail so |
| `Morecore.GrowthIsFresh` | openamp/libhugetlbfs/morecore.c:218-222 | a growth returns the previous heaptop iff something was mapped or mmap answers the old base; its block is inside the mapping, with bytes not handed out since they were mapped |
| `Morecore.RegrowthCanMove` | openamp/libhugetlbfs/morecore.c:128-136 | a run that shrinks to nothing and then grows elsewhere, not at the previous heaptop |
| `Morecore.AlignIsMask` | openamp/libhugetlbfs/libhugetlbfs_internal.h:48-48 | the ALIGN mask on 64-bit longs, bit by bit, rounds up to the page, also for negative numbers |
| `Morecore.FailedUnmapIsDirty` | openamp/libhugetlbfs/morecore.c:180-184 | a run with a failed munmap that leaves handed-out bytes above heaptop |
| `Morecore.TopCanFallBelowBase` | openamp/libhugetlbfs/morecore.c:180-216 | a run with a failed munmap that leaves heaptop below heapbase |
| `IoRegion.PhysToOffsetLoop` | openamp/libmetal/lib/include/metal/io.h:181-197 | whenever the do-while search ends it has computed the first matching offset, also when page_mask + 1 wraps to 0 |
| `IoRegion.FoundIfOccurs` | openamp/libmetal/lib/include/metal/io.h:181-197 | a paged search finds an address iff the table maps some page of the region to it, unaligned tables included |
| `IoRegion.OrdinaryRegionsEnd` | openamp/libmetal/lib/include/metal/io.h:181-197 | it ends for every address in single-page regions and in regions that end a page before the end of the address space |
| `IoRegion.SearchNeverEnds` | openamp/libmetal/lib/include/metal/io.h:181-197 | in all cases the ending condition leaves out, every turn meets an offset in range that does not match, so the loop never ends |
| `IoRegion.EndlessRegion` | openamp/libmetal/lib/include/metal/io.h:181-197 | a region and an address for which it never ends |
| `IoRegion.BadPhysIsAnswered` | openamp/libmetal/lib/include/metal/io.h:181-197 | a region that answers METAL_BAD_PHYS with an offset out of range |
| `IoRegion.RoundTrip` | openamp/libmetal/lib/include/metal/io.h:160-197 | phys_to_offset(phys(o)) == o for every offset of an aligned region iff it is a single page or no two pages share a physical page |
| `IoRegion.FindsExactlyImages` | openamp/libmetal/lib/include/metal/io.h:181-197 | an address is found iff it is the image of an offset in range |
| `IoRegion.SearchIsSound` | openamp/libmetal/lib/include/metal/io.h:181-197 | an answer in range translates back; other answers are METAL_BAD_OFFSET, except for METAL_BAD_PHYS when the first offset is out of range |
| `IoRegion.VirtualRoundTrip` | openamp/libmetal/lib/include/metal/io.h:131-222 | virtual addresses of such a region survive the trip through offsets and physical addresses |
| `IoRegion.VirtToOffsetExactly` | openamp/libmetal/lib/include/metal/io.h:145-152 | in a region with a virtual address METAL_BAD_OFFSET is answered exactly for the addresses of no offset, any other with its offset |
| `IoRegion.AnswersAreRightExactly` | openamp/libmetal/lib/include/metal/io.h:131-152 | the answers are right for all addresses iff the region has a virtual address or is empty |
| `IoRegion.UnmappedRegionAnswers` | openamp/libmetal/lib/include/metal/io.h:131-152 | a region without one answers METAL_BAD_VA with 0 and NULL with 1 |
| `IoRegion.RegionIsInOnePiece` | openamp/libmetal/lib/include/metal/io.h:131-137 | virtual addresses start at the region's and go up by one with the offset |
| `IoRegion.PageIsInOnePiece` | openamp/libmetal/lib/include/metal/io.h:160-173 | physical addresses start at the page's table entry and go up by one with the offset in the page |
| `Dlist.List.constructor` | openamp/sysfsutils/lib/dlist.c:102-117 | an empty list with null links |
| `Dlist.List.InsertNode` | openamp/sysfsutils/lib/dlist.c:220-249 | the node is linked in at the marker, next and prev stay inverse, count exact, from either empty form |
| `Dlist.List.Insert` | openamp/sysfsutils/lib/dlist.c:171-211 | a fresh node at the marker |
| `Dlist.List.Unlink` | openamp/sysfsutils/lib/dlist.c:292-320 | the node leaves the list, the rest stays linked both ways, a marker on it moves on |
| `Dlist.List.InsertSorted` | openamp/sysfsutils/lib/dlist.c:440-445 | the node goes before the first one it precedes |
| `Dlist.List.Seek` | openamp/sysfsutils/lib/dlist.c:442-443 | the loop leaves the marker on the first node the new one precedes, or on the head |
| `DlistSort.InsertSortedKeepsOrder` | openamp/sysfsutils/lib/dlist.c:440-445 | a sorted list stays sorted, for a sorter that fits any total preorder |
| `DlistSort.MoveToEnd` | openamp/sysfsutils/lib/dlist.c:292-331 | the node goes from one list to the end of the other, both stay well linked |
| `DlistSort.MergeRuns` | openamp/sysfsutils/lib/dlist.c:478-536 | the two runs at the front of one list end up merged at the end of the other, and mergecount goes up by the turns taken, modulo 2^32 |
| `DlistSort.MergeTurn` | openamp/sysfsutils/lib/dlist.c:459-537 | one turn of the outer loop merges the first two runs; with a width of 0 it counts nothing and leaves every list object unchanged |
| `DlistSort.MergePass` | openamp/sysfsutils/lib/dlist.c:450-539 | one pass merges all neighbouring runs and returns the turns of its inner loop modulo 2^32 |
| `DlistSort.CountRun` | openamp/sysfsutils/lib/dlist.c:461-467 | counts the first run up to the width or the end |
| `DlistSort.Passes` | openamp/sysfsutils/lib/dlist.c:567-580 | whenever the loop, with its 32-bit counters, ends, all nodes are in one list in the order SortLoop gives |
| `DlistSort.TakeOver` | openamp/sysfsutils/lib/dlist.c:584-598 | the emptied list takes over the other's nodes, well linked |
| `DlistSort.Sort` | openamp/sysfsutils/lib/dlist.c:550-605 | whenever it ends: the same nodes, well linked and counted, in the order SortLoop gives; up to 2^31 nodes it ends and is a stable sort under any total preorder |
| `MergeTheory.SortIsStableSort` | openamp/sysfsutils/lib/dlist.c:450-605 | bottom-up merging by doubling widths is a stable sort of every sequence |
| `MergeTheory.PassDoublesRuns` | openamp/sysfsutils/lib/dlist.c:450-539 | a pass turns sorted runs of w into sorted runs of 2w |
| `MergeTheory.MergeIsStable` | openamp/sysfsutils/lib/dlist.c:480-505 | merging keeps equivalent elements in order |
| `MergeTheory.PassStepsBounds` | openamp/sysfsutils/lib/dlist.c:459-537 | a pass counts at most one turn per node, one for a single run, more than one for several |
| `MergeTheory.SortEndsExactly` | openamp/sysfsutils/lib/dlist.c:569-580 | below 2^32 nodes the loop ends iff there are at most 2^31, and is then the merge sort |
| `MergeTheory.SortLoopNeverEnds` | openamp/sysfsutils/lib/dlist.c:569-580 | between 2^31 and 2^32 nodes every pass up to width 2^31 reports more than one turn, and the width is then 0 with all nodes still to move |
| `MergeTheory.SortLoopWraps` | openamp/sysfsutils/lib/dlist.c:458-480 | with 2^32 nodes, or one more, the count of the first pass wraps and the loop ends after it |
| `MergeTheory.WrappedSortLeavesUnsorted` | openamp/sysfsutils/lib/dlist.c:458-480 | 2^32 numbers in falling order are left unsorted |
| `ElfFormat.LoadsAreAll` | openamp/open-amp/lib/remoteproc/elf_loader.c:356-375 | the reference list holds every PT_LOAD index of the image once, in increasing order |
| `ElfLayout.PhdrIsRead` | openamp/open-amp/lib/remoteproc/elf_loader.c:177-214 | a program header laid out field by field, of either class and anywhere, is read back as its fields |
| `ElfLayout.ShdrIsRead` | openamp/open-amp/lib/remoteproc/elf_loader.c:303-354 | a section header likewise: its name table's range |
| `ElfLayout.EhdrIsRead` | openamp/open-amp/lib/remoteproc/elf_loader.c:34-122 | an ELF header likewise: class, both table offsets, entry sizes, counts and the name index |
| `ElfLayout.LaidOutIsRead` | openamp/open-amp/lib/remoteproc/elf_loader.c:177-354 | in an image with such a header and tables where it says, the tables saved, every program header read, and the section names are those laid out |
| `ElfLoader.WordsAreStates` | openamp/open-amp/lib/include/openamp/elf_loader.h:303-309 | the fields of the load-state word do not overlap: equal words are equal states |
| `ElfLoader.AnsweredAdvances` | openamp/open-amp/lib/remoteproc/elf_loader.c:395-532 | a window that holds what was asked for always advances the header state, unless e_shstrndx is out of range |
| `ElfLoader.ReachMonotone` | openamp/open-amp/lib/remoteproc/elf_loader.c:395-532 | what one window reaches, a larger one reaches through it |
| `ElfLoader.EnoughMemory` | openamp/open-amp/lib/remoteproc/elf_loader.c:432-530 | with a given number of allocations left the headers get as far as with enough iff there is one per table to copy, and otherwise stop before |
| `ElfLoader.ChunksDoNotMatter` | openamp/open-amp/lib/remoteproc/elf_loader.c:395-532 | for any sequence of windows of the image, answering or not, the whole image would still take the headers where it would have at first, so settled headers are independent of the chunking |
| `ElfLoader.AnswersSettle` | openamp/open-amp/lib/remoteproc/elf_loader.c:395-532 | three answered requests settle them |
| `ElfLoader.TableEntry` | openamp/open-amp/lib/remoteproc/elf_loader.c:177-239 | an entry of the saved table is the image's own program header, at multiples of the loader's structure |
| `ElfFormat.ReadsTheFormat` | openamp/open-amp/lib/remoteproc/elf_loader.c:216-239 | an entry is read where the format puts it iff it is the first or e_phentsize is the structure's size |
| `RemoteprocLoad.WideEntriesAreMisread` | openamp/open-amp/lib/remoteproc/elf_loader.c:216-239 | an image with larger entries whose loadable segment the loader does not see |
| `ElfLoader.ElfInfo.LoadHeader` | openamp/open-amp/lib/remoteproc/elf_loader.c:395-532 | new state, returned value and request for every window and state; the saved tables are always the image's slices |
| `ElfLoader.ElfInfo.LoadTables` | openamp/open-amp/lib/remoteproc/elf_loader.c:432-458 | program headers, then whatever else the window holds |
| `ElfLoader.ElfInfo.LoadSections` | openamp/open-amp/lib/remoteproc/elf_loader.c:459-493 | section headers, none if e_shnum is 0 |
| `ElfLoader.ElfInfo.LoadNames` | openamp/open-amp/lib/remoteproc/elf_loader.c:494-530 | the section-name table, or the error for a bad index |
| `ElfLoader.ElfInfo.NextLoadSegment` | openamp/open-amp/lib/remoteproc/elf_loader.c:356-375 | the first PT_LOAD from an index on and the index after it, or none and the number of headers |
| `ElfLoader.ElfInfo.EmitNext` | openamp/open-amp/lib/remoteproc/elf_loader.c:565-595 | the next segment's address, range and size, the stage after it, and its index in eight bits |
| `ElfLoader.ElfInfo.FinishHeaders` | openamp/open-amp/lib/remoteproc/elf_loader.c:596-618 | after the last segment the missing headers, then completion |
| `ElfLoader.ElfInfo.Load` | openamp/open-amp/lib/remoteproc/elf_loader.c:534-620 | what a call does in each stage: headers first, with the request or the first segment that follows, the next segment, missing headers, nothing; and that an error from the headers is passed over |
| `RemoteprocLoad.EmitIsNext` | openamp/open-amp/lib/remoteproc/elf_loader.c:565-595 | within the mask each call gives out exactly the next PT_LOAD and moves on, and the last ends the emission |
| `RemoteprocLoad.EmissionNeverEnds` | openamp/open-amp/lib/remoteproc/elf_loader.c:565-595 | with a PT_LOAD at index 255 or later that is not the last header, no number of calls completes |
| `RemoteprocLoad.CrowdedImageIsOutside` | openamp/open-amp/lib/remoteproc/elf_loader.c:565-595 | such an image: 257 program headers, all of them PT_LOAD |
| `RemoteprocLoad.HeaderTurn` | openamp/open-amp/lib/remoteproc/remoteproc.c:507-554 | every turn of the header loop but a first short one moves the state on, and fails only without memory or headers |
| `RemoteprocLoad.LoadHeaders` | openamp/open-amp/lib/remoteproc/remoteproc.c:507-554 | the loop ends; on success the program headers are saved, with seeking all headers are; it succeeds whenever the tables are in the image |
| `RemoteprocLoad.DataStep` | openamp/open-amp/lib/remoteproc/remoteproc.c:562-644 | one turn writes the next segment, fetches bytes or missing headers, or ends |
| `RemoteprocLoad.LoadData` | openamp/open-amp/lib/remoteproc/remoteproc.c:562-644 | the loop ends; what it writes is, in header order and each once with its bytes and zero padding, the PT_LOADs up to one at RPROC_LOAD_ANYADDR without file bytes, leaving out those at RPROC_LOAD_ANYADDR; all of these on success |
| `RemoteprocLoad.ChunkFillsSegment` | openamp/open-amp/lib/remoteproc/remoteproc.c:588-620 | what is written for a segment is p_filesz bytes from p_offset of the image at p_paddr, and zeros up to p_memsz |
| `RemoteprocLoad.WrittenIsAll` | openamp/open-amp/lib/remoteproc/remoteproc.c:562-644 | that is every PT_LOAD iff none is at RPROC_LOAD_ANYADDR |
| `RemoteprocLoad.AnywhereStopsTheLoad` | openamp/open-amp/lib/remoteproc/remoteproc.c:586-636 | an image of two PT_LOADs of which the loop writes none |

## Left out

- Cache flushes and invalidations, and memory orders weaker than the explicit sequentially consistent
  fences: shared accesses are taken as sequentially consistent.
- The virtqueue's parameter checks (virtqueue.h:164-212) exist only in builds with VQUEUE_DEBUG; the
  model follows those builds. Both builds agree as long as no add meets a full ring, which is proved
  for the receive queue (ReceiveQueueNeverFull) and for callers that carve transmit buffers only while
  they hold fewer than there are free descriptors (SendNeverFull). For other callers a send on a full
  ring returns ERROR_VRING_FULL in the debug build; in the default build it takes the terminator 32768
  for a descriptor index and writes outside the tables, which is not modelled.
- VirtqueueCode.Virtqueue.AddConsumedBuffer: promises no protocol invariant after the device returned
  a head it does not hold, and the runs of VirtqueueTheorems have no such return. Indirect descriptors
  are never made by this driver.
- The code's calls are proved with the other party between calls; that its accesses interleave as the
  actions do rests on each action being one of them.
- virtqueue_get_desc_size, virtqueue_dump, deferred vq_ring_enable_interrupt with a non-zero count, and
  the notify callback itself.
- The loop of rpmsg_virtio_rx_callback itself: its steps are GetRxBuffer, BeginReceive, EndReceive and
  ReleaseRxBuffer, in histories where the application's calls fall anywhere between them.
- rpmsg in device role (its calls are the device side of the virtqueue modules), waiting for a TX
  buffer with a timeout, message contents, name-service messages beyond create and destroy, and lookup
  of endpoints by name.
- Physical addresses of rpmsg buffers: a buffer's address in a descriptor is its pool address.
- The address bitmap is one boolean per bit; the shifts and masks on machine words are not modelled.
- RpmsgEndpoints.RpmsgDevice.CreateEpt: stops before the name-service announcement; its failure is the
  separate step Unregister.
- Mutexes are never destroyed or forced open, and only the owner releases. The -EINVAL returns of
  metal_condition_wait (no mutex, mutex not taken, another mutex) are not modelled.
- In SharedFile the time between attempts and the file contents are left out; preparation is one step
  of the child.
- In Morecore addresses and sizes are unbounded integers (AlignIsMask says for which the mask rounds); the truncation of the backing file and
  thp_morecore are left out.
- In IoRegion words have 64 bits; regions with their own translation callbacks are left out.
- DlistSort.Sort: is stated for the cases in which the sort ends; the others are SortLoopNeverEnds and,
  from 2^32 + 2 nodes on, those in which SortLoop says so.
- dlist: deletion, transformation, filtering and destruction; data are numbers and comparisons are
  functions of the data alone.
- ElfLoader: offsets and lengths are unbounded, so the sums in the window test do not wrap; images are
  little-endian as the host. Freed allocations and elf_release are left out.
- ElfLoader.ElfInfo.LoadHeader: images whose table entries are smaller than the loader's structures are
  excluded, because the loader then reads beyond the tables it saved.
- RemoteprocLoad.LoadData: the resource table is left out and the mapping of device addresses is a
  parameter.
- remoteproc lifecycle, virtio_mmio, operation_interface, the demo, the command-line tools, the sysfs
  wrappers and the other systems' mutexes and condition variables: they would only add members that
  follow from one branch or are I/O.
