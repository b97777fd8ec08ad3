# NovaVM: a verified model of the virtual machine monitor's core

NovaVM boots small virtual machines on KVM, gives them virtio network devices, saves and
restores them as snapshots, and keeps a pool of them pre-warmed. This project models the
parts of it that carry state, arithmetic and protocols, and proves what they keep on every
input and over every run.

Each imperative part of the program is a class or a method here and is proved against a
specification function on plain values; the theorems are about those functions, so they
hold of the methods too.

| part | modules |
|---|---|
| guest memory: regions of bytes behind guest addresses | `GuestMemory` |
| split virtqueue (VIRTIO 1.2, section 2.7): descriptor walk, available ring, used ring | `Virtqueue`, `AvailRing`, `RingSizes`, `UsedRing` |
| network device (VIRTIO 1.2, section 5.1.6): scatter/gather, the two loops, whole runs, end-to-end delivery | `ScatterGather`, `NetDevice`, `Net`, `NetRuns`, `TxDelivery`, `RxDelivery`, `TxOverlap`, `TxTermination` |
| MMIO transport (VIRTIO 1.2, section 4.2.2) with the network device behind it, and the device bus | `Mmio`, `NetTransport`, `NetLiveness`, `DeviceSnapshot` |
| snapshots: memory dump and both ways back, queue state, the machine that continues | `SnapshotMemory`, `DeviceSnapshot`, `Snapshot` |
| pre-warmed pool as atomic steps of several threads | `Pool` |
| booting an ELF kernel: the ordered writes and what the guest finds afterwards | `BootSteps`, `PageTables`, `Elf`, `BootParams`, `BootBuilder`, `BootGuest` |
| serial port and the capture loops | `Uart`, `Capture` |
| cpio archives (newc format) and OCI layers | `Cpio`, `CpioTree`, `Layers` |
| image references and calendar dates | `ImageRef`, `Calendar` |
| bytes, arithmetic, results | `Bytes`, `Arithmetic`, `Wrappers` |

Reading guide to the main results:

- A driver and a device that share an available ring: `AvailRing.FifoForever` covers every
  interleaving of driver stores (slot and index separately), device pops, device completions
  and unrelated guest stores, across the wrap-around of the 16-bit counters.
  `RingSizes.FifoIff` shows that this holds for exactly the sizes that divide 65536.
- `Virtqueue.PopExact`: the bounded descriptor walk reports a too-long chain iff the chain is cyclic.
- `TxDelivery.TransmitDelivers` and `RxDelivery.ReceiveDelivers` put these together with
  scatter/gather and the used ring: one call moves the frames of the outstanding chains, in order.
- `TxTermination.EqualCursorsEnd` and `NetLiveness.NeverHangs`: with equal cursors the transmit loop ends
  for every memory and every placement of its rings, and from activation on no run without a reset
  can hang the device, whatever the driver stores.
- `NetRuns.RunConserves`: over any run, both used rings in guest memory hold exactly the completions made.
- `Mmio.ActivationHandsOverIff`: which queues an activation hands to the device after any register writes.
- `Snapshot.RestoredRunsAlike` and `Snapshot.RestoredResetDiffers`: a restored machine and the saved
  one, whose register files differ, do the same over every run without a reset, and part at a reset.
- `Pool.PoolIsSafe`, `Pool.OrderedPool` and `Pool.ReleaseKeepsOrderIff`: safety of every
  interleaving, order without releases, and exactly when a release keeps it.
- `BootGuest.TablesSurviveIff`, `MapsExactly1G`, `KernelIntact`, `GuestFindsCmdline`,
  `GuestFindsInitrdIff` and `GuestFindsMemoryMap`: what the guest sees in memory after the whole
  write sequence.
- `Uart.StatusOverRuns` and `Capture.CaptureLoop`: the status registers after any run of accesses,
  and an injection between every rise of the interrupt and the next guest entry.
- `Capture.UntilMatch`: searching a bounded window after every exit is as good as searching everything.
- `Layers.FlattenIsOverlayIff`, `Cpio.ConcatenatedArchives`, `CpioTree.TreeRoundTrip`: extraction
  against OCI overlay semantics, and archives against an independent parser.

Some intended properties do not hold of the code for all inputs. In each case the code is
modelled as it is, and the exact condition or a concrete counterexample is proved:

- the available ring is first in, first out iff its size divides 65536 (`RingSizes.FifoIff`), although
  any size is stored unchecked; for every other size `RingSizes.OverwrittenHead` gives a run in which
  a published head is overwritten before it is popped;
- the transmit loop ends wherever the rings lie if the cursors agree
  (`TxTermination.EqualCursorsEnd`) or the used slot cannot be written (`TxOverlap.UnwritableEnds`),
  and one of the two holds from activation on (`NetLiveness.ActivationIsLive`,
  `NetLiveness.StepKeepsLive`); with both rings at one address and every head walkable it ends iff
  the cursors agree or nothing is outstanding (`TxOverlap.OverlapEndsIff`), and a queue restored from
  a snapshot with different cursors runs on (`TxOverlap.RestoredCursorsRunOn`);
- a device gets the queues its driver described iff DRIVER_OK was never set before, successfully or
  not; a reset does not bring them back (`Mmio.ActivationHandsOverIff`);
- a restored device does get them after a reset, where the saved one gets none
  (`Snapshot.RestoredResetDiffers`);
- regions are mapped lazily from a dump iff their accumulated offsets are page aligned
  (`SnapshotMemory.RoundTripLazy`), and a file that is too short is noticed by the eager load only
  (`SnapshotMemory.LoadRefills`, `SnapshotMemory.FromFile`);
- network queues come back iff the restoring side asks for a network device
  (`DeviceSnapshot.QueuesComeBackIff`);
- a release keeps the pool ordered iff the VM is younger than all that are ready
  (`Pool.ReleaseKeepsOrderIff`; `Pool.ReleaseBreaksOrder` is a run in which it is not);
- a layer whose own entries lie under its own whiteouts loses them (`Layers.FlattenIsOverlayIff`);
- cpio fields of 32 bits and NUL-terminated names limit what can be stored (`Cpio.EntryRoundTripIff`);
- in the archive of a tree every item follows its parent directory iff each path with a slash has
  that directory among the collected items (`CpioTree.ParentsFirstIff`); a backslash in a name, which
  becomes a slash, can invent a parent that is missing (`CpioTree.BackslashLosesParent`);
- the RAM disk is placed above the kernel iff the 64-bit sums do not wrap
  (`BootGuest.InitrdAboveKernelIff`);
- the page tables survive a boot iff the RAM disk puts no other value over a byte of theirs
  (`BootGuest.TablesSurviveIff`; `BootGuest.WrapBreaksIdentity` is a boot in which it does);
- the zero page describes the RAM disk iff it lies below 4 GiB (`BootGuest.GuestFindsInitrdIff`);
- the memory map offers no device address as RAM iff memory ends at or below 0xD0000000
  (`BootGuest.MapAvoidsDevicesIff`);
- printing and parsing an image reference agree iff its digest is plain or starts with `sha256:`
  (`ImageRef.PrintNormalisesIff`), and printing settles after one round on more inputs than that,
  also with an exact condition (`ImageRef.PrintIdempotentIff`).

`run_vcpu_until_match` is documented to stop at a match, and reports that match with the
stop reason "buffer full"; the model keeps that name.

## Model
| member | source | states |
|---|---|---|
| GuestMemory.ReadAt | crates/nova-mem/src/guest_memory.rs:141-159 | a read succeeds iff the range lies in one region, and then returns exactly the bytes at those addresses |
| GuestMemory.PutAt | crates/nova-mem/src/guest_memory.rs:120-138 | a write changes the addressed bytes, no other byte of memory and no region boundary |
| GuestMemory.ReadBack | crates/nova-mem/src/guest_memory.rs:120-159 | what was written is read back |
| GuestMemory.ReadApart | crates/nova-mem/src/guest_memory.rs:120-159 | a write, successful or refused, is invisible to reads of disjoint ranges |
| GuestMemory.Extensional | crates/nova-mem/src/guest_memory.rs:62-72 | two memories with the same regions and the same byte at every address are equal |
| GuestMemory.SortIsSorted | crates/nova-mem/src/guest_memory.rs:35 | the constructors' sort orders the regions by base and keeps exactly the given ones |
| GuestMemory.ConstructedWellFormedIff | crates/nova-mem/src/guest_memory.rs:25-39 | regions given in any order become a well-formed memory, sorted and disjoint, iff none is empty and no two overlap |
| GuestMemory.GuestMemoryMmap.FromRegions | crates/nova-mem/src/guest_memory.rs:34-38 | regions with distinct buffers become a valid memory, in address order |
| GuestMemory.GuestMemoryMmap.Locate | crates/nova-mem/src/guest_memory.rs:62-72 | the search loop finds the first region that contains the address and the offset in it, or reports that there is none |
| GuestMemory.GuestMemoryMmap.ReadSlice | crates/nova-mem/src/guest_memory.rs:141-159 | refines the value-level read, including which of the two errors is returned |
| GuestMemory.GuestMemoryMmap.WriteSlice | crates/nova-mem/src/guest_memory.rs:120-138 | the in-place copy refines the value-level write; a refused write changes nothing and says why |
| GuestMemory.New | crates/nova-mem/src/guest_memory.rs:25-39 | succeeds iff no region is empty, and then gives fresh zeroed regions in address order |
| Virtqueue.WrapIncCounts | crates/nova-virtio/src/queue.rs:197 | incrementing the 16-bit cursor counts modulo 65536 |
| Virtqueue.WalkTooLong | crates/nova-virtio/src/queue.rs:178-183 | the walk gives up iff the NEXT path has at least as many links as the budget |
| Virtqueue.WalkReturnsPath | crates/nova-virtio/src/queue.rs:172-195 | a successful walk returns the whole NEXT path from the head and ends at a descriptor without NEXT |
| Virtqueue.WalkMemoryError | crates/nova-virtio/src/queue.rs:185-186 | every other failure comes from a descriptor on the path that cannot be read |
| Virtqueue.WalkExact | crates/nova-virtio/src/queue.rs:172-202 | for paths inside the table: too long iff cyclic (pigeonhole), otherwise the whole path with 1 to `size` descriptors |
| Virtqueue.PopExact | crates/nova-virtio/src/queue.rs:156-203 | the same for `pop` on the head it finds in the available ring |
| Virtqueue.WalkChain | crates/nova-virtio/src/queue.rs:172-195 | the loop with its counter computes the recursive walk over the table in memory |
| Virtqueue.Queue.constructor | crates/nova-virtio/src/queue.rs:107-118 | a new queue is not ready, has its maximum size, and both cursors at zero |
| Virtqueue.Queue.FromSaved | crates/nova-virtio/src/queue.rs:121-141 | every saved field, including both cursors, is taken over |
| Virtqueue.Queue.NextChain | crates/nova-virtio/src/queue.rs:156-195 | the reading half of `pop` returns the specified chain, error or empty result for the memory at hand |
| Virtqueue.Queue.PopChain | crates/nova-virtio/src/queue.rs:156-203 | returns what `Pop` specifies for memory and queue state; the cursor advances exactly on success, and an error or an empty ring leaves the queue as it was |
| Virtqueue.Queue.AddUsedElem | crates/nova-virtio/src/queue.rs:206-222 | memory and cursor after a completion, including both partial failures; succeeds iff the slot and the index are writable |
| Virtqueue.Queue.HasPending | crates/nova-virtio/src/queue.rs:232-235 | pending iff the index differs from the cursor; on a ready queue iff `pop` would not report an empty ring |
| AvailRing.SlotsDistinctIff | crates/nova-virtio/src/queue.rs:169 | entries that can be outstanding together have different slots, as both sides compute them, iff the size divides 65536 |
| AvailRing.SlotsCollide | crates/nova-virtio/src/queue.rs:169 | otherwise two entries fewer than `size` apart share a slot where the counter wraps |
| AvailRing.GoodSizesArePowersOfTwo | crates/nova-virtio/src/queue.rs:89-90 | those sizes are exactly the powers of two |
| AvailRing.PopIsFifo | crates/nova-virtio/src/queue.rs:156-203 | in every state of the protocol, empty is reported iff nothing is outstanding and a popped head is the oldest outstanding one |
| AvailRing.StepKeeps | crates/nova-virtio/src/queue.rs:156-222 | every step of driver or device keeps index, outstanding slots and cursor in agreement |
| AvailRing.FifoForever | crates/nova-virtio/src/queue.rs:156-203 | over every interleaving from a fresh queue the popped heads are a prefix of the published ones, each once and in order, across wrap-around |
| RingSizes.OverwrittenHead | crates/nova-virtio/src/queue.rs:156-203 | for every size that does not divide 65536 there is a run from an unused queue in which the device pops a head that was published later, in place of the oldest |
| RingSizes.FifoIff | crates/nova-virtio/src/queue.rs:156-203 | the ring is first in, first out over all runs iff the size divides 65536 |
| ScatterGather.GatherIsDrop | crates/nova-virtio/src/net.rs:171-189 | the skip-and-append loop yields the concatenated readable buffers without their first bytes |
| ScatterGather.FragmentationIrrelevant | crates/nova-virtio/src/net.rs:171-189 | the frame depends only on the concatenation, not on how it is split into buffers |
| ScatterGather.ScatterStores | crates/nova-virtio/src/net.rs:297-309 | disjoint buffers hold exactly the first min(capacity, length) payload bytes afterwards |
| ScatterGather.ScatterElsewhere | crates/nova-virtio/src/net.rs:297-309 | no byte outside the filled part of the buffers changes |
| ScatterGather.ScatterKeepsRest | crates/nova-virtio/src/net.rs:297-309 | disjoint buffers keep, beyond the stored payload, exactly what they held before |
| ScatterGather.LoopBack | crates/nova-virtio/src/net.rs:171-309 | gathering from the buffers a payload was scattered into, without the 12 header bytes, gives exactly the frame followed by the bytes the buffers held beyond it |
| UsedRing.UsedElemInjective | crates/nova-virtio/src/queue.rs:207-210 | a used element determines its id and length |
| UsedRing.AddUsedRecords | crates/nova-virtio/src/queue.rs:206-222 | appending a completion keeps the ring a record of the log: index equals count modulo 65536 and the last `size` completions are in their slots |
| UsedRing.AddUsedElsewhere | crates/nova-virtio/src/queue.rs:206-222 | a completion touches only the used ring |
| UsedRing.OtherQueueKept | crates/nova-virtio/src/queue.rs:206-222 | and so leaves the record of another queue intact |
| NetDevice.TxProgress | crates/nova-virtio/src/net.rs:156-217 | with the used ring clear of the available index, every served chain brings the loop one step closer to its end |
| NetDevice.SafeEnds | crates/nova-virtio/src/net.rs:156-217 | so the loop ends |
| TxOverlap.OverlapEmptiesIff | crates/nova-virtio/src/net.rs:156-217 | with both rings at one address, a served chain is followed by an empty ring iff the two cursors agree |
| TxOverlap.SharedAddressEnds | crates/nova-virtio/src/net.rs:156-217 | with both rings at one address and equal cursors the loop ends for every memory |
| TxOverlap.UnwritableEnds | crates/nova-virtio/src/net.rs:156-217 | it also ends for every memory in which the used slot cannot be written |
| TxOverlap.OverlapEndsIff | crates/nova-virtio/src/net.rs:156-217 | with both rings at one address, and every head in them walkable, the loop ends iff nothing is outstanding or the cursors agree; otherwise no number of turns ends it |
| TxOverlap.RestoredCursorsRunOn | crates/nova-virtio/src/queue.rs:121-141 | a queue rebuilt from saved cursors 1 and 0 over blank memory is such a case |
| TxTermination.EqualCursorsEnd | crates/nova-virtio/src/net.rs:156-217 | with equal cursors the loop ends for every memory and every placement of the two rings, overlapping or not, although completions then rewrite the entries and the index it reads |
| NetDevice.TxConserves | crates/nova-virtio/src/net.rs:156-217 | a transmit call appends exactly the popped heads, in order and with length 0, to the used log and leaves both cursors equal |
| NetDevice.RxConserves | crates/nova-virtio/src/net.rs:250-314 | a receive call does the same with the lengths written |
| NetDevice.TxKeepsOther | crates/nova-virtio/src/net.rs:156-217 | transmitting leaves the record of the other queue intact |
| NetDevice.RxKeepsOther | crates/nova-virtio/src/net.rs:250-314 | so does receiving |
| Net.GatherFrame | crates/nova-virtio/src/net.rs:171-189 | the loop with its running skip counter refines `Gather` |
| Net.ScatterPayload | crates/nova-virtio/src/net.rs:297-309 | the loop with its running offset refines `Scatter` and reports min(capacity, length) bytes |
| Net.TransmitOne | crates/nova-virtio/src/net.rs:156-217 | one turn of the loop: without a chain nothing changes; otherwise a non-empty frame goes out and the chain is completed with length 0 |
| Net.TransmitAll | crates/nova-virtio/src/net.rs:154-219 | for every memory and queue on which the loop ends at all: memory, cursors, frames on the TAP and the count are those of the specification loop |
| Net.ReceiveAll | crates/nova-virtio/src/net.rs:248-315 | memory, cursors and remaining TAP frames are those of the specification loop; true iff something was received |
| Net.NetDev.Activate | crates/nova-virtio/src/net.rs:364-373 | the device takes over queues and memory and keeps its TAP |
| Net.NetDev.Reset | crates/nova-virtio/src/net.rs:393-397 | it gives both up again |
| Net.NetDev.ProcessTx | crates/nova-virtio/src/net.rs:130-220 | nothing happens without TAP, memory and a transmit queue; otherwise queue 1 is drained as specified and nothing else of the device changes |
| Net.NetDev.ProcessRx | crates/nova-virtio/src/net.rs:225-320 | the same for queue 0 and incoming frames |
| NetRuns.NextKeeps | crates/nova-virtio/src/net.rs:130-320 | a transmit pass, a receive pass or a guest store keeps both used rings records of their logs, with equal cursors |
| NetRuns.RunConserves | crates/nova-virtio/src/net.rs:130-320 | over every run: logs only grow, and each used index in memory and each cursor equal the number of completions modulo 65536 |
| TxDelivery.TransmitDelivers | crates/nova-virtio/src/net.rs:130-220 | from any state of the ring protocol one transmit call serves every outstanding chain in publication order, sends exactly the non-empty frames the driver described, and leaves the ring empty, although it writes completions meanwhile |
| RxDelivery.ReceiveDelivers | crates/nova-virtio/src/net.rs:225-320 | from any state of the ring protocol one receive call delivers as many frames as there are chains: frame i ends up behind a 12-byte header in the i-th outstanding chain, as far as it fits, and that chain is completed with the length written; with more frames than chains the next one is lost and the others stay on the TAP |
| RxDelivery.ReceiveElsewhere | crates/nova-virtio/src/net.rs:225-320 | every range clear of those buffers and of the used ring reads as before |
| Mmio.SetupIsLastWriteWins | crates/nova-virtio/src/mmio.rs:193-301 | before activation each queue has the last size, ready bit and address halves written while it was selected, in any order and interleaving |
| Mmio.FirstActivation | crates/nova-virtio/src/mmio.rs:225-246 | the first DRIVER_OK hands exactly these queues to the device; it succeeds iff there is memory and the device accepts, otherwise FAILED is set |
| Mmio.HeldUntilReset | crates/nova-virtio/src/mmio.rs:193-301 | whatever the device answers, after activation no register write alters size, ready flag or addresses of the queues it holds until a reset, and only a notification lets it move their cursors |
| Mmio.AlwaysConsistent | crates/nova-virtio/src/mmio.rs:193-301 | over every sequence of writes an activated transport has a nonzero status and an empty queue list |
| Mmio.EmptyForever | crates/nova-virtio/src/mmio.rs:193-301 | an empty queue list stays empty under every sequence of writes |
| Mmio.SpentByTurnOn | crates/nova-virtio/src/mmio.rs:225-246 | the first DRIVER_OK, accepted or refused, spends the list for good |
| Mmio.ActivationHandsOverIff | crates/nova-virtio/src/mmio.rs:193-301 | after any writes, an activation that succeeds hands over the described queues iff DRIVER_OK was never set before, and otherwise none |
| Mmio.RestoredSetup | crates/nova-virtio/src/mmio.rs:341-353 | the register-file queues of a restored transport follow the driver's writes, up to a reset and on to the next DRIVER_OK, as those of a new one |
| Mmio.ResetTellsApart | crates/nova-virtio/src/mmio.rs:225-246 | after a reset and a new set-up a saved transport hands over no queue, a restored one the queues just described |
| Mmio.MmioTransport.constructor | crates/nova-virtio/src/mmio.rs:125-141 | a new transport has the device's number of queues of size 256, nothing selected and status 0 |
| Mmio.MmioTransport.Write | crates/nova-virtio/src/mmio.rs:193-301 | every register write refines the transition function, for every answer of the device to an activation or a notification |
| Mmio.MmioTransport.WriteStatus | crates/nova-virtio/src/mmio.rs:225-246 | reset, activation and failure of the status register refine the transition function |
| Mmio.MmioTransport.ForceActivate | crates/nova-virtio/src/mmio.rs:341-353 | with memory and a willing device the restored queues go to the device and the transport counts as driven; otherwise nothing changes |
| NetTransport.KickTransmits | crates/nova-virtio/src/net.rs:375-391 | with a TAP attached, a notification of queue 1 runs the transmit loop: the device then holds the queue the loop leaves, and its other queues unchanged |
| NetTransport.StepAlike | crates/nova-virtio/src/mmio.rs:193-330 | two active transports that hold the same queues over the same memory and TAP agree after every write but a reset, every poll, guest store and arriving frame, whatever else differs in their register files |
| NetTransport.RunAlike | crates/nova-virtio/src/mmio.rs:193-330 | and so over every run without a reset |
| NetTransport.RingsStay | crates/nova-virtio/src/mmio.rs:193-330 | over such a run, notifications and polls included, the rings stay where they are and only cursors move |
| NetLiveness.TransmitKeepsQuiescent | crates/nova-virtio/src/net.rs:156-217 | a transmit pass keeps "cursors agree or the used slot cannot be written", and every region |
| NetLiveness.StepKeepsLive | crates/nova-virtio/src/mmio.rs:193-330 | so does every register write but a reset, every poll, guest store and arriving frame, and each of these steps is defined |
| NetLiveness.NeverHangs | crates/nova-virtio/src/mmio.rs:193-330 | so every run of such steps goes through, wherever the driver put its rings |
| NetLiveness.ActivationIsLive | crates/nova-virtio/src/mmio.rs:225-246 | a first activation after any set-up with nonzero queue sizes starts such a run |
| DeviceSnapshot.QueuesRoundTrip | crates/nova-vmm/src/snapshot.rs:423-446 | saved queue tuples rebuild every queue with its addresses and cursors |
| DeviceSnapshot.RestoreIsLast | crates/nova-vmm/src/snapshot.rs:396-446 | on the bus that a restore builds, the last saved network device wins, whatever else was on the saved bus |
| DeviceSnapshot.QueuesComeBackIff | crates/nova-vmm/src/snapshot.rs:396-446 | with one network device, its queues after restore are the saved ones iff the restore registers a network device or there was nothing to restore |
| DeviceSnapshot.ForceAt | crates/nova-vmm/src/device_mgr.rs:206-214 | forcing activates the first device of the type and no other |
| DeviceSnapshot.ForceNone | crates/nova-vmm/src/device_mgr.rs:206-214 | without a device of the type nothing changes |
| DeviceSnapshot.MmioBus.Register | crates/nova-vmm/src/device_mgr.rs:40-54 | a registered device goes to the end of the bus |
| DeviceSnapshot.MmioBus.SnapshotQueues | crates/nova-vmm/src/device_mgr.rs:182-203 | the loop saves exactly the devices that expose activated queues, in bus order |
| DeviceSnapshot.MmioBus.ForceActivateDevice | crates/nova-vmm/src/device_mgr.rs:206-214 | the search loop refines the value-level activation of the first match |
| DeviceSnapshot.RestoreBus | crates/nova-vmm/src/snapshot.rs:396-446 | the restored bus has the console and, if asked for, the network device, with all saved queues forced in |
| SnapshotMemory.DumpIsFlat | crates/nova-vmm/src/snapshot.rs:468-480 | dumping never fails and writes the regions one after the other |
| SnapshotMemory.Dump | crates/nova-vmm/src/snapshot.rs:468-480 | the loop over the regions refines the dump, each region read through its guest address |
| SnapshotMemory.FileRegions | crates/nova-vmm/src/snapshot.rs:281-288 | each region is assigned the sum of the sizes before it |
| SnapshotMemory.MapFile | crates/nova-mem/src/mmap.rs:87-114 | a private mapping at a page-aligned offset is a copy of that part of the file, read on as zeros past its end; any other offset and size 0 fail |
| SnapshotMemory.FromFile | crates/nova-mem/src/guest_memory.rs:46-59 | succeeds iff no region is empty and all accumulated offsets are page aligned, however long the file is; then memory is the file cut at these offsets, in address order |
| SnapshotMemory.CutFlat | crates/nova-vmm/src/snapshot.rs:281-291 | cutting a dump at accumulated offsets gives back every region, wherever the dump lies in the file |
| SnapshotMemory.Load | crates/nova-vmm/src/snapshot.rs:483-495 | the loop refines loading region by region through guest addresses, with both ways to fail, for overlapping regions too |
| SnapshotMemory.LoadRefills | crates/nova-vmm/src/snapshot.rs:483-495 | on disjoint regions it refills them in order up to the first one the file no longer covers, and succeeds iff there is none |
| SnapshotMemory.RefilledWhole | crates/nova-vmm/src/snapshot.rs:483-495 | a long enough file refills all regions with the file cut at the layout |
| SnapshotMemory.LazyIsEager | crates/nova-vmm/src/snapshot.rs:281-291 | mapping lazily and loading eagerly give the same memory for every file that covers the layout |
| SnapshotMemory.RoundTripLazy | crates/nova-vmm/src/snapshot.rs:281-291 | dump then map: works iff the offsets are page aligned, and then gives the same memory |
| SnapshotMemory.SnapshotPreservesBytes | crates/nova-vmm/src/snapshot.rs:467-495 | the same byte at every guest address, and the same unmapped addresses |
| Snapshot.SaveAndRestore | crates/nova-vmm/src/snapshot.rs:246-446 | a machine comes back iff its dumped regions are page aligned, and then has its memory and an active network device with its queues behind a new register file |
| Snapshot.RestoredRunsAlike | crates/nova-vmm/src/snapshot.rs:246-446 | over every run of register writes, notifications, polls, stores and arriving frames without a reset the same steps are defined on both machines, and memory, frames and queues agree |
| Snapshot.RestoredResetDiffers | crates/nova-vmm/src/snapshot.rs:246-446 | after a reset and a new set-up the saved device gets no queues, the restored one those described since the restore |
| Pool.PoolIsSafe | crates/nova-runtime/src/pool.rs:195-356 | over every interleaving: capacity respected, ready count exact, created + accepted = ready + assigned + expired, and all ids in pool, in flight or held are distinct and already handed out |
| Pool.DoKeeps | crates/nova-runtime/src/pool.rs:195-356 | every single step keeps these, also between planning and pushing |
| Pool.OrderedPool | crates/nova-runtime/src/pool.rs:282-356 | without releases, even under retargeting: VMs are handed out in id order, ready is ordered by id and warm time, and expiry removes exactly a prefix |
| Pool.GoalBound | crates/nova-runtime/src/pool.rs:282-356 | with the target fixed as well, ready plus in flight never exceed the goal |
| Pool.RetainIsSuffix | crates/nova-runtime/src/pool.rs:305-312 | in an ordered line the expired VMs are exactly a prefix |
| Pool.ReleaseKeepsOrderIff | crates/nova-runtime/src/pool.rs:243-250 | in every reachable state, an accepted release keeps an ordered line ordered iff no ready VM has a larger id or a later warm time |
| Pool.ReleaseBreaksOrder | crates/nova-runtime/src/pool.rs:243-250 | a run from an empty pool after which expiry removes the last VM of the line and keeps the first |
| Pool.CycleReachesGoal | crates/nova-runtime/src/pool.rs:303-354 | an undisturbed cycle fills the pool to its goal, or leaves it as it is when more are live |
| Pool.VmPool.constructor | crates/nova-runtime/src/pool.rs:134-160 | an empty pool whose first id is 1 |
| Pool.VmPool.TryAcquire | crates/nova-runtime/src/pool.rs:195-209 | the critical section of `acquire`: hands out the front VM and counts it, or counts a miss |
| Pool.VmPool.ReturnVm | crates/nova-runtime/src/pool.rs:243-250 | the critical section of `release`: back of the line, or dropped when full |
| Pool.VmPool.PlanReplenish | crates/nova-runtime/src/pool.rs:305-326 | expiry and the id loop under the lock refine the planning step |
| Pool.VmPool.PushNew | crates/nova-runtime/src/pool.rs:344-354 | the pushing loop refines the step that takes as many VMs as fit |
| Pool.VmPool.SetTargetSize | crates/nova-runtime/src/pool.rs:260-265 | only the target changes |
| Uart.InputConserved | crates/nova-vmm/src/exit_handler.rs:363-450 | over any port accesses and input: bytes received followed by bytes still queued are all bytes ever queued, in order |
| Uart.RegistersHoldLastWrite | crates/nova-vmm/src/exit_handler.rs:363-450 | over any run every register, the divisor latch and the registers behind the same ports included, holds and reads back the last value written to it in its latch mode |
| Uart.ThrePendingIffDue | crates/nova-vmm/src/exit_handler.rs:363-450 | over any run the transmitter interrupt is pending iff it was raised and no identification read has returned 2 since |
| Uart.StatusOverRuns | crates/nova-vmm/src/exit_handler.rs:411-455 | over any run the identification register shows unread input first if its interrupt is enabled, then an unread transmitter interrupt, else none; an interrupt is due iff it shows one; and data is ready iff some queued byte was not received |
| Uart.SerialState.constructor | crates/nova-vmm/src/exit_handler.rs:334-345 | a new port has no input and nothing pending |
| Uart.SerialState.Write | crates/nova-vmm/src/exit_handler.rs:363-398 | refines the register transition and reports whether the byte is output |
| Uart.SerialState.Read | crates/nova-vmm/src/exit_handler.rs:411-450 | refines the register read with its side effects |
| Uart.SerialState.QueueInput | crates/nova-vmm/src/exit_handler.rs:401-403 | input goes to the end of the queue |
| Capture.CaptureLoop | crates/nova-vmm/src/exit_handler.rs:545-707 | for every trace of exits and input: output is exactly the bytes transmitted, bounded by the maximum and stopped when it is reached; any other end is the one the last exit asks for; every rise of the interrupt, whatever caused it, is followed by an injection before the guest is next entered; and none is injected that is not due |
| Capture.HandleExit | crates/nova-vmm/src/exit_handler.rs:598-648 | one exit applies its port operation, appends an output byte iff one is transmitted, and leaves no rise of the interrupt without an injection |
| Capture.DrainInput | crates/nova-vmm/src/exit_handler.rs:577-586 | new input is queued, and a rise it causes is injected before the next entry |
| Capture.AnyWindow | crates/nova-vmm/src/exit_handler.rs:885-887 | the window scan finds the target iff it occurs |
| Capture.WindowDecides | crates/nova-vmm/src/exit_handler.rs:881-892 | if the target can only occur at the end, searching a long enough suffix decides it |
| Capture.UntilMatch | crates/nova-vmm/src/exit_handler.rs:866-999 | stops with a match iff the target occurs in the captured output, and then it is a suffix that occurs nowhere earlier; every other end comes from the last exit; and every rise of the interrupt is injected before the next entry |
| Layers.RemovalHides | crates/nova-runtime/src/image/extract.rs:96-122 | the removal passes delete exactly the paths below opaque directories and at or below whiteout targets, and keep parents |
| Layers.MarkerOrderIrrelevant | crates/nova-runtime/src/image/extract.rs:96-122 | the order of the markers does not matter |
| Layers.FlattenIsOverlayMinusOwnHidden | crates/nova-runtime/src/image/extract.rs:28-130 | extracting a layer equals overlaying it (OCI Image Specification, "Whiteouts") without its own entries under its own markers |
| Layers.FlattenIsOverlayIff | crates/nova-runtime/src/image/extract.rs:28-130 | it equals the overlay iff no own entry lies under an own marker |
| Layers.StackIsOverlay | crates/nova-runtime/src/image/extract.rs:21-133 | for any stack of such layers the result is the overlay of the stack, and every entry's parent directories exist |
| Layers.RootFs.ExtractLayer | crates/nova-runtime/src/image/extract.rs:28-130 | collecting markers while unpacking and removing afterwards refines the flattening of one layer |
| Layers.RootFs.ExtractLayers | crates/nova-runtime/src/image/extract.rs:21-133 | the loop over layers refines the fold |
| Cpio.HexRoundTrip | crates/nova-boot/src/initrd.rs:258-277 | a hexadecimal field of fixed width reads back as the value |
| Cpio.EntryRoundTripIff | crates/nova-boot/src/initrd.rs:247-299 | an independent newc parser recovers the entry and the rest of the stream iff name and data sizes fit 32 bits and the name has no NUL |
| Cpio.ParsedIsRepresentable | crates/nova-boot/src/initrd.rs:247-299 | nothing else can ever be parsed |
| Cpio.EntryAligned | crates/nova-boot/src/initrd.rs:247-299 | every entry takes a multiple of 4 bytes |
| Cpio.ArchiveRoundTrip | crates/nova-boot/src/initrd.rs:247-299 | an archive parses to its entries without the trailers |
| Cpio.ConcatenatedArchives | crates/nova-boot/src/initrd.rs:174-182 | an archive followed by any number of injected files parses to all entries in order |
| Cpio.WriteEntry | crates/nova-boot/src/initrd.rs:247-299 | appends exactly the bytes of the entry with both paddings to the buffer |
| Cpio.InjectFile | crates/nova-boot/src/initrd.rs:174-182 | appends a one-file archive |
| CpioTree.CollectEntries | crates/nova-boot/src/initrd.rs:188-211 | the recursive collection loop lists every node of the tree under its path |
| CpioTree.SortIsSorted | crates/nova-boot/src/initrd.rs:127-129 | the sort orders by path bytes and keeps every item |
| CpioTree.DirectoriesFirst | crates/nova-boot/src/initrd.rs:127-129 | in the sorted list of every tree, with any names, a path precedes all paths below it |
| CpioTree.ParentsFirstIff | crates/nova-boot/src/initrd.rs:122-211 | in the archive of every tree each path with a slash comes after a directory entry for all of it but its last component iff the collected items contain that directory |
| CpioTree.NamedParentsFirst | crates/nova-boot/src/initrd.rs:122-211 | they do for every tree whose names have no slash and no backslash |
| CpioTree.BackslashLosesParent | crates/nova-boot/src/initrd.rs:199 | a file alone in its tree has its parents in the archive iff its name has no backslash |
| CpioTree.DirToCpio | crates/nova-boot/src/initrd.rs:122-154 | writes the archive of the sorted entries with inode numbers counted up, and one trailer |
| CpioTree.TreeRoundTrip | crates/nova-boot/src/initrd.rs:122-182 | the archive of a tree followed by injected files parses to the tree's entries and the files |
| BootSteps.LastWriteWins | crates/nova-vmm/src/builder.rs:376-468 | after a successful sequence of writes each byte is the one last written to it |
| BootSteps.WriteSurvives | crates/nova-vmm/src/builder.rs:376-468 | a write that no later write overlaps is found complete in the final memory |
| PageTables.SetupPageTables | crates/nova-boot/src/cpu_setup.rs:33-57 | the loop performs the 514 table writes in order and stops at the first failure |
| PageTables.SetupGdt | crates/nova-boot/src/cpu_setup.rs:65-83 | the same for the three descriptors |
| PageTables.SetupPlacesTables | crates/nova-boot/src/cpu_setup.rs:33-57 | after success all three tables are in memory |
| PageTables.WalkIsIdentity | crates/nova-boot/src/cpu_setup.rs:33-57 | the 4-level walk (Intel SDM Volume 3A, section 4.5) maps every address below 1 GiB to itself |
| PageTables.WalkFaultsElsewhere | crates/nova-boot/src/cpu_setup.rs:33-57 | with no other entry present it maps nothing else |
| PageTables.TablesByBytes | crates/nova-boot/src/cpu_setup.rs:33-57 | the tables are in place iff each of their bytes is |
| Elf.CollectSegments | crates/nova-boot/src/elf.rs:79-106 | the header loop collects the loadable segments in order |
| Elf.Parse | crates/nova-boot/src/elf.rs:48-128 | accepts or refuses an image as specified, check by check, and an accepted kernel has a segment |
| Elf.LoadOne | crates/nova-boot/src/elf.rs:132-154 | file bytes, then zeros up to the memory size, or a failure when the file is too short |
| Elf.LoadIntoMemory | crates/nova-boot/src/elf.rs:131-156 | all segments in order, stopping at the first failure |
| Elf.ElfRoundTrip | crates/nova-boot/src/elf.rs:48-128 | parsing an image laid out for an entry point and segments returns exactly these |
| BootParams.FieldKept | crates/nova-boot/src/boot_params.rs:66-126 | fields of the zero page that do not overlap all keep what was stored |
| BootParams.E820RoundTrip | crates/nova-boot/src/boot_params.rs:99-111 | a memory map entry reads back from its 20 bytes |
| BootParams.ZeroPage.SetE820Entry | crates/nova-boot/src/boot_params.rs:99-111 | refused from index 128 on, otherwise exactly the 20 bytes of the entry change |
| BootBuilder.CmdlineParts | crates/nova-boot/src/cmdline.rs:36-38 | splitting the joined command line at blanks gives the arguments of every part, in order, whether or not parts contain blanks |
| BootBuilder.WriteCmdline | crates/nova-boot/src/cmdline.rs:41-75 | a command line of 4096 bytes or more is refused; otherwise it is written with its NUL |
| BootBuilder.LoadInitrd | crates/nova-boot/src/initrd.rs:21-48 | the RAM disk is refused when too large and otherwise written at its address |
| BootBuilder.FillParams | crates/nova-vmm/src/builder.rs:402-459 | the in-place stores give the zero page of the specification |
| BootBuilder.BuildElf | crates/nova-vmm/src/builder.rs:376-468 | the whole boot is one ordered sequence of writes, stopped by the first failure |
| BootBuilder.BootElf | crates/nova-vmm/src/builder.rs:376-468 | the same from the kernel image: an unreadable image writes nothing |
| BootGuest.InitrdAboveKernel | crates/nova-vmm/src/builder.rs:444-449 | without wrap-around the RAM disk is page aligned, at least 1 MiB above every segment and never below 1 MiB |
| BootGuest.InitrdAboveKernelIff | crates/nova-vmm/src/builder.rs:444-449 | it is that far above every segment iff the 64-bit sums do not wrap |
| BootGuest.PlacedIsClear | crates/nova-vmm/src/builder.rs:444-449 | without wrap-around the RAM disk is clear of everything below 1 MiB and of every segment |
| BootGuest.TablesSurviveIff | crates/nova-vmm/src/builder.rs:388-468 | after every successful boot the tables are in place iff each byte of theirs that the RAM disk covers has the value it puts there |
| BootGuest.IdentityMapSurvives | crates/nova-vmm/src/builder.rs:388-468 | with the RAM disk clear of the tables the walk maps each address below 1 GiB to itself |
| BootGuest.MapsExactly1G | crates/nova-vmm/src/builder.rs:388-468 | from blank tables and a kernel above 1 MiB it maps nothing else |
| BootGuest.WrapBreaksIdentity | crates/nova-vmm/src/builder.rs:444-449 | a segment near the top of the address space puts the RAM disk on the page tables, and address 0 is no longer mapped |
| BootGuest.KernelIntact | crates/nova-boot/src/elf.rs:131-156 | disjoint segments above 1 MiB and clear of the RAM disk are in final memory with file bytes and zeroed tails, untouched by all later writes |
| BootGuest.ZeroPageIntact | crates/nova-vmm/src/builder.rs:462-468 | the zero page is complete after every successful boot |
| BootGuest.GdtIntact | crates/nova-vmm/src/builder.rs:400 | the descriptor table is complete if the RAM disk is clear of it |
| BootGuest.CmdlineIntact | crates/nova-boot/src/cmdline.rs:41-75 | so is the command line with its terminator |
| BootGuest.InitrdIntact | crates/nova-boot/src/initrd.rs:21-48 | and the RAM disk itself if it is clear of the zero page |
| BootGuest.GuestFindsCmdline | crates/nova-boot/src/cmdline.rs:41-75 | through the address and size fields of the zero page the guest reads exactly the command line |
| BootGuest.GuestFindsInitrdIff | crates/nova-boot/src/initrd.rs:21-48 | the zero page gives the RAM disk's address iff it is below 4 GiB, and then the guest reads exactly the RAM disk there |
| BootGuest.GuestFindsMemoryMap | crates/nova-vmm/src/builder.rs:402-420 | the addresses in the RAM entries the guest finds are exactly those below 0x9FC00 and those from 1 MiB to the memory size |
| BootGuest.MapIsBacked | crates/nova-vmm/src/builder.rs:402-420 | with memory of a whole number of MiB every such address exists |
| BootGuest.MapAvoidsDevicesIff | crates/nova-vmm/src/builder.rs:402-420 | none of them lies in a device window iff memory ends at or below 0xD0000000 |
| ImageRef.PrintNormalisesIff | crates/nova-api/src/registry.rs:68-131 | parsing the printed form gives the same reference iff it has no digest, or one that starts with `sha256:` or has neither `:` nor `@` |
| ImageRef.PrintIdempotentIff | crates/nova-api/src/registry.rs:68-131 | what is printed always parses, and prints as itself iff the input has no digest, a digest that starts with `sha256:`, one without a second `@`, or one whose part behind the second `@` starts with `sha256:` |
| ImageRef.RefusedIffBlank | crates/nova-api/src/registry.rs:68-74 | exactly the blank inputs are refused |
| ImageRef.ResolveStable | crates/nova-api/src/registry.rs:97-115 | registry and repository resolve to themselves when joined again, and the registry is always a host |
| Calendar.DaysToYmd | crates/nova-api/src/server.rs:540-566 | terminates with the valid Gregorian date whose number of days since 1970-01-01 is the input |
| Calendar.YearsClosedForm | crates/nova-api/src/server.rs:540-570 | the day count of the year loop is the closed Gregorian formula |
| Calendar.LaterDay | crates/nova-api/src/server.rs:540-566 | dates are ordered as their day numbers |
| Calendar.DateUnique | crates/nova-api/src/server.rs:540-566 | a day number belongs to one date only |
| Calendar.RoundTrip | crates/nova-api/src/server.rs:540-566 | converting a date's day number gives the date back |
| Calendar.SystemTimeFields | crates/nova-api/src/server.rs:523-538 | date and time of day that add up to the seconds given |
| Calendar.EpochFields | crates/nova-api/src/policy_server.rs:283-318 | the second, separately written conversion does the same |
| Calendar.ConversionsAgree | crates/nova-api/src/policy_server.rs:283-318 | both conversions give the same fields for every input |

## Left out
- Net.TransmitAll: requires that the loop ends, which `TxTermination.EqualCursorsEnd` shows for equal cursors, `TxOverlap.UnwritableEnds` for an unwritable slot, `NetDevice.SafeEnds` for rings that lie apart, and `TxOverlap.OverlapEndsIff` decides for rings at one address; unequal cursors with rings that overlap otherwise are not decided.
- Net.NetDev.ProcessTx: the same requirement on queue 1.
- TxOverlap.OverlapEndsIff: requires that every head in the ring can be walked; a chain that cannot be read ends the loop earlier.
- TxOverlap.SharedAddressEnds: one placement of the rings; `TxTermination.EqualCursorsEnd` is the statement for all.
- NetLiveness.ActivationIsLive: requires nonzero queue sizes, by which the source divides.
- Net.ReceiveAll: requires a nonzero queue size only where the source divides by it, that is, once a frame meets a published chain.
- Net.NetDev.ProcessRx: the same requirement on queue 0.
- Virtqueue.Queue.AddUsedElem: requires a nonzero queue size, by which the source divides.
- SnapshotMemory.MapFile: a private mapping is modelled as a copy made at once; later changes of the file are not seen, and a page wholly past its end reads as zeros where the source would be killed by a signal.
- SnapshotMemory.FromFile: the same about files shorter than the layout.
- SnapshotMemory.LazyIsEager: for files that cover the layout; on a shorter one the eager load fails and the lazy mapping does not.
- Snapshot.RestoredRunsAlike: compares memory, TAP and network device; vCPU, interrupt controller and clock state are KVM's.
- CpioTree.NamedParentsFirst: a corollary for plain names; `CpioTree.ParentsFirstIff` is the statement for every tree.
- Layers.FlattenIsOverlayMinusOwnHidden: requires entries that agree in type with what they replace, and paths in plain normal form.
- Layers.FlattenIsOverlayIff: the same requirement.
- Layers.StackIsOverlay: the same requirement.
- Guest addresses are unbounded; 64-bit overflow of an address sum is modelled only in the RAM disk placement.
- `pop` and `add_used` are each one atomic step; the program reads and writes guest memory without fences.
- TAP errors, interrupt eventfds, MAC address, feature negotiation and configuration space of the network device.
- KVM calls, signals, watchdog threads, timeouts, mmap flags and huge pages; vCPU exits and TAP frames are input sequences.
- Reading MMIO registers, bus dispatch by address, sub-word accesses and notifications of other devices, whose effect on their cursors is an input.
- Features, interrupt status and console state across a snapshot, which the program does not save; the JSON encoding of what it saves.
- Pool payloads, warm strategies, condition variables and counter overflow; `acquire_timeout` is a first try followed by an acquire.
- `inject_agent`, which pads before the name and so does not produce newc entries, `create_init_script`, and file modes on hosts that are not Unix.
- Symbolic links, permissions, decompression and input/output errors in layer extraction.
- bzImage kernels, the PVH entry note, vCPU register setup and overflow of sizes inside an ELF header.
- MMIO exits, port accesses other than the serial port, and diagnostic counters in the capture loops.
- The textual format of time stamps.
- gRPC, REST, registry download, command line, SDKs, eBPF, Wasm and policy engines, admission checks, configuration parsing and the other device stubs: library plumbing, or easy members.
