# Split virtqueue driver core, modelled in Dafny

This project models the driver side of the split virtqueue in
`virtio/virtio_base/virtio_ring.c`. The driver owns:

- a descriptor table of `(addr, len, flags, next)` entries;
- an available ring, which it publishes;
- a used ring, which the device fills.

The driver hands buffers to the device as descriptor chains, reclaims them when
the device reports them used, decides when to notify the device, and filters
the transport feature bits it offers. The layout and the protocol follow the
OASIS VIRTIO 1.1 standard:

- section 2.6 for split virtqueues, 2.6.5 for the descriptor table and
  2.6.5.3 for indirect descriptors;
- sections 2.6.6 and 2.6.8 for the available and used rings;
- sections 2.6.7 and 2.6.10 for notification suppression and event indices;
- chapter 6 for the reserved feature bits.

Files:

- `types.dfy` (`VirtioTypes`) holds the shared types:
  - 16-bit ring indices with explicit wrap-around (`Add16`, `Sub16`);
  - the descriptor and used-element records and the flag bits;
  - the segment list the caller passes;
  - the ordering events the driver issues: barriers and notifications.
- `layout.dfy` (`SplitLayout`) holds the allocator invariant `Wf`. It relates
  a ghost `Layout` to the descriptor table and the token array:
  - the free list, in order;
  - the chain of every live head;
  - the owner of every descriptor.

  It also holds the pure functions that say what each enqueue and detach does
  to the table (`Walk`, `Follow`, `Enqueued`, `Reclaimed`, `AddLayout`,
  `DetachLayout`), and the lemmas that the invariant is preserved and what it
  implies.
- `event_index.dfy` (`EventIndex`) holds `vring_need_event` on 16-bit indices.
- `features.dfy` (`TransportFeatures`) holds `vring_transport_features`.
- `virtqueue.dfy` (`Virtqueue`) holds the queue itself. The class `VirtQueue<T>`
  has:
  - the arrays `desc`, `data` (tokens), `availRing` and `usedRing`;
  - the ring indices and flags;
  - `free_head`, `num_free`, `last_used_idx`, `num_added` and
    `use_event_idx`;
  - the two event-index slots.

  One method per driver operation sits beside the methods `Device*`, which
  stand for the device's writes.

  A token is `Option<T>`: `None` plays the role of a NULL `void *`. Barriers
  and doorbell writes are appended, in program order, to a ghost `log`.
- `scenarios.dfy` (`Scenarios`) holds a few concrete runs:
  - enqueue, then poll before and after the device completes;
  - a full ring refusing a chain but still notifying the device;
  - a chain as long as the table;
  - five segments carried by one indirect slot of a four-entry table.

Two behaviours of the code are worth stating:

- **A rejected used entry is not consumed.** `vring_get_buf` returns NULL
  without advancing `last_used_idx` when the used entry names an index out of
  range or a descriptor without a token. The entry is therefore read again on
  the next call: the two checks at `virtio_ring.c:248-255` return before
  `last_used_idx++` at line 260. `GetBuf` leaves `lastUsedIdx` unchanged on
  that path.
- **A refused enqueue may still notify.** When `vring_add_buf` is refused for
  lack of free descriptors and has device-readable segments, it notifies the
  device on every such call. `AddBuf`'s contract records that `Notify` on
  exactly those calls.

## Model

| member | source | states |
|---|---|---|
| Virtqueue.VirtQueue.AddBuf | virtio/virtio_base/virtio_ring.c:44-132 | It returns -1 when the token is missing, `out+in` exceeds num, `out+in` is 0, or fewer than `out+in` descriptors are free. In all four cases the table, tokens, free list and rings are unchanged. Exactly one Notify is logged, and only when the last check fails with `out > 0`. Otherwise: `num_free` drops by `out+in` and is returned; `free_head` is the old head walked `out+in` steps; the table is `Enqueued`; the token sits at the old head; the head goes into `avail.ring[idx % num]`; `avail.idx` and `num_added` advance mod 2^16 after a full barrier; the invariant is kept. |
| Virtqueue.VirtQueue.AddChain | virtio/virtio_base/virtio_ring.c:83-131 | The success path of `vring_add_buf`, with the same effects and the invariant `Valid()` kept. |
| Virtqueue.VirtQueue.WriteChain | virtio/virtio_base/virtio_ring.c:86-109 | The two enqueue loops plus the NEXT fix-up leave the table equal to `Enqueued(old table, free list, sg, out, out+in)`. The walk ends at the descriptor reached after `out+in` free-list steps. |
| Virtqueue.VirtQueue.FillChain | virtio/virtio_base/virtio_ring.c:86-104 | The two enqueue loops: the first `out + in` free-list descriptors, reached from `free_head` along `next`, get segments 0 to `out + in - 1` in order, each flagged NEXT and the device-writable ones also WRITE, each keeping its `next` (`Fill`). Every other descriptor is unchanged. The walk ends `out + in` steps from `free_head`, at the next free-list entry if there is one, and `prev` is the last descriptor written. |
| Virtqueue.VirtQueue.TakeIndirectSlot | virtio/virtio_base/virtio_ring.c:170-184 | The returned head is the old `free_head`. That one descriptor becomes `(pa, len, INDIRECT)` and keeps its `next`, which becomes `free_head`. `num_free` drops by 1, the head's token slot holds the caller's token, no other descriptor or token changes, and the invariant is kept with one more one-descriptor chain. |
| Virtqueue.VirtQueue.FillRun | virtio/virtio_base/virtio_ring.c:88-104 | One enqueue loop: after `count` more descriptors along `next`, the table is `Fill(..., k0 + count)`. The walk position and `prev` are the matching free-list entries. |
| Virtqueue.VirtQueue.Publish | virtio/virtio_base/virtio_ring.c:118-130 | The head goes into avail slot `idx % num`. After a full barrier, `avail.idx` and `num_added` each advance by 1 mod 2^16. Nothing else changes. |
| Virtqueue.VirtQueue.AddBufIndirect | virtio/virtio_base/virtio_ring.c:134-204 | `pa == 0` returns -1 and nothing changes, whatever the ring state and the other arguments. Otherwise: table entry k is `IndirectEntry` (segment k, NEXT except on the last, WRITE from `out` on, `next` k+1 or 0 on the last); exactly one main slot, the old free head, becomes `(pa, (out+in)*16, INDIRECT)` and keeps its `next`; `free_head` becomes that `next`; `num_free` drops by 1 and is returned; the token and publication are as for the direct path; the invariant is kept. |
| Virtqueue.FillIndirect | virtio/virtio_base/virtio_ring.c:150-168 | Entries `0 .. out+in-1` of the indirect table are `IndirectEntry(sg, out, out+in, k)`. Entries past them are unchanged. |
| Virtqueue.VirtQueue.DetachBuf | virtio/virtio_base/virtio_ring.c:206-225 | The chain followed along NEXT from the head is the ghost chain of that head. `num_free` grows by its length. Its tail's `next` becomes the old free head, `free_head` becomes the head, and the token is cleared. The layout is `DetachLayout`, and the invariant is kept. |
| Virtqueue.VirtQueue.GetBuf | virtio/virtio_base/virtio_ring.c:227-273 | With no unconsumed entry: None, and nothing changes, `*len` included. Otherwise `*len` is the used entry's len. An id `>= num` or without a token gives None, only a read barrier, and `last_used_idx` unchanged. A valid id gives its old token and reclaims its chain as `DetachBuf` does. `last_used_idx` then advances by 1, and `used_event` is set to it, followed by a full barrier, exactly when NO_INTERRUPT is clear. |
| Virtqueue.VirtQueue.DetachUnusedBuf | virtio/virtio_base/virtio_ring.c:275-291 | The lowest-index live slot's token is returned and its chain reclaimed, and `avail.idx` drops by 1 mod 2^16. With no live slot: None, and nothing changes. The live count drops by one exactly when a token is returned. |
| Virtqueue.VirtQueue.KickPrepare | virtio/virtio_base/virtio_ring.c:293-312 | The answer is `need_event(avail_event, avail.idx, avail.idx - num_added)` with event indices, and "used NO_NOTIFY clear" without. A full barrier comes first, and `num_added` is 0 afterwards. |
| Virtqueue.VirtQueue.QueueNotify | virtio/virtio_base/virtio_ring.c:314-324 | One Notify carrying the queue selector is logged. |
| Virtqueue.VirtQueue.KickAlways | virtio/virtio_base/virtio_ring.c:326-344 | A write barrier, `num_added` reset, a full barrier, then exactly one Notify. |
| Virtqueue.VirtQueue.Kick | virtio/virtio_base/virtio_ring.c:346-352 | `num_added` is reset, and a Notify is logged exactly when the kick_prepare decision says so. |
| Virtqueue.VirtQueue.DisableInterrupt | virtio/virtio_base/virtio_ring.c:354-359 | NO_INTERRUPT is set in the avail flags, every other bit is unchanged, then a full barrier. |
| Virtqueue.VirtQueue.EnableInterrupt | virtio/virtio_base/virtio_ring.c:361-371 | NO_INTERRUPT is cleared, every other bit is unchanged, then a full barrier. It always returns true. |
| Virtqueue.DisableThenEnable | virtio/virtio_base/virtio_ring.c:357-368 | Enabling after disabling gives the flags with NO_INTERRUPT clear. It restores them exactly when interrupts were enabled before (both directions). |
| Virtqueue.StartInterrupts | virtio/virtio_base/virtio_ring.c:373-380 | On a non-NULL queue: interrupts are enabled, then a kick; both effects are stated. On NULL: nothing. |
| Virtqueue.StopInterrupts | virtio/virtio_base/virtio_ring.c:382-388 | On a non-NULL queue: interrupts are disabled. On NULL: nothing. |
| Virtqueue.LiveCountClear | virtio/virtio_base/virtio_ring.c:281-288 | Clearing one live token lowers the live count by exactly one. Repeated teardown calls therefore end after at most num calls. |
| Virtqueue.ScanFindsLive | virtio/virtio_base/virtio_ring.c:281-290 | The teardown scan finds nothing exactly when no token is live. |
| Virtqueue.FirstLive | virtio/virtio_base/virtio_ring.c:281-284 | The slot found holds a token, and no lower slot does. |
| SplitLayout.Conservation | virtio/virtio_base/virtio_ring.c:84-224 | Under the invariant, `num_free` plus the number of descriptors on live chains equals num. |
| SplitLayout.FreeIffNotLive | virtio/virtio_base/virtio_ring.c:84-109 | A descriptor is on the free list exactly when it is on no live chain. |
| SplitLayout.TokenOnlyAtHead | virtio/virtio_base/virtio_ring.c:112 | On a live chain, exactly the head holds a token. |
| SplitLayout.FreeHasNoToken | virtio/virtio_base/virtio_ring.c:87-112 | A free descriptor holds no token and heads no chain. |
| SplitLayout.FreeListIsWalk | virtio/virtio_base/virtio_ring.c:88-109 | `free_head` followed k times along `next` is the k-th free descriptor. |
| SplitLayout.ChainIsFollow | virtio/virtio_base/virtio_ring.c:215-219 | The NEXT-flag walk from a live head visits exactly that head's chain, of length 1 to num. |
| SplitLayout.SingleDescriptorChain | virtio/virtio_base/virtio_ring.c:173-177 | A live head without NEXT, such as an INDIRECT head, is a one-descriptor chain, so detach returns exactly 1 to the free list. |
| SplitLayout.EnqueuedAt | virtio/virtio_base/virtio_ring.c:88-106 | The k-th taken descriptor holds segment k's addr and len, with NEXT on all but the last and WRITE from `out` on, and keeps its `next`. Every other descriptor is unchanged. |
| SplitLayout.EnqueuePreservesWf | virtio/virtio_base/virtio_ring.c:84-112 | The direct enqueue keeps the invariant: the first `out+in` free descriptors become the chain of the old free head. |
| SplitLayout.IndirectPreservesWf | virtio/virtio_base/virtio_ring.c:171-184 | The indirect enqueue keeps the invariant: the first free descriptor alone becomes a chain. |
| SplitLayout.AddPreservesWf | virtio/virtio_base/virtio_ring.c:84-112 | Any table that keeps the taken descriptors' links and flags their NEXT correctly keeps the invariant. |
| SplitLayout.DetachPreservesWf | virtio/virtio_base/virtio_ring.c:211-224 | Pushing a live chain, in order, onto the front of the free list keeps the invariant. |
| SplitLayout.WalkAlongList | virtio/virtio_base/virtio_ring.c:88-95 | Walking k steps from the front of a linked list reaches its k-th entry. |
| EventIndex.NeedEvent | virtio/virtio_base/virtio_ring.c:307 | `vring_need_event`, computed with uint16 wrap-around, is true exactly when `(event - old) mod 2^16 < (new - old) mod 2^16`. |
| EventIndex.InWindow | virtio/virtio_base/virtio_ring.c:302-307 | The device is notified exactly when its event index is one of the entries published since the last kick. |
| EventIndex.NothingNewNoKick | virtio/virtio_base/virtio_ring.c:302-307 | With nothing published since the last kick, no notify is needed. |
| EventIndex.WaitingDeviceIsKicked | virtio/virtio_base/virtio_ring.c:302-307 | A device waiting at `old` is notified exactly when something was published. |
| TransportFeatures.Negotiate | virtio/virtio_base/virtio_ring.c:390-403 | The loop over bits 28..37 yields `Negotiated(features)`. |
| TransportFeatures.FeatureDisable | virtio/virtio_base/virtio_ring.c:400 | Bit i is clear afterwards, and every other bit is unchanged. |
| TransportFeatures.NegotiatedBit | virtio/virtio_base/virtio_ring.c:396-402 | A bit survives exactly when it was offered and is either outside 28..37 or one of INDIRECT_DESC, EVENT_IDX, VERSION_1. |
| TransportFeatures.NegotiatedOnlyClearsTransport | virtio/virtio_base/virtio_ring.c:396-402 | Negotiation only clears bits, and bits outside the transport range are untouched. |
| TransportFeatures.NegotiatedIdempotent | virtio/virtio_base/virtio_ring.c:396-402 | Negotiating twice equals negotiating once. |

## Left out

- Memory barriers (`mb`, `rmb`, `wmb`) are only ghost log entries in program order; their ordering guarantee against the concurrently running device is not modelled.
- The doorbell write `virtio_iowrite16` is a `Notify(qidx)` log entry; the MMIO access is not modelled.
- Concurrency with the device is not modelled. Its writes to `used.idx`, `used.ring`, `used.flags` and `avail_event` are the methods `DeviceCompletes`, `DeviceSetsUsedFlags` and `DeviceSetsAvailEvent`, called between driver operations.
- `DPRINTK`, `PRINTK` and `RPRINTK` logging is not modelled.
- The physical meaning of `addr` and `pa` is not modelled; both are opaque 64-bit values.
- The headers defining `vring_need_event`, `vring_used_event`, `vring_avail_event`, `VRING_HAS_UNCONSUMED_RESPONSES` and `virtio_feature_disable` are not part of this model. Each is assumed to expand as follows:
  - `vring_need_event(e, new, old)` is `(uint16_t)(new - e - 1) < (uint16_t)(new - old)`, the formula of VIRTIO 1.1 section 2.6.10 (`EventIndex.NeedEvent`);
  - `vring_used_event` is the slot after the last avail ring entry and `vring_avail_event` the slot after the last used ring entry, as VIRTIO 1.1 sections 2.6.6 (`struct virtq_avail`) and 2.6.8 (`struct virtq_used`) lay them out (the fields `usedEvent` and `availEvent`); section 2.6.10 says how they are used;
  - `VRING_HAS_UNCONSUMED_RESPONSES(vq)` is `last_used_idx != used->idx` on 16-bit indices (`VirtQueue.HasUnconsumed`), a driver macro and not a definition of the standard;
  - `virtio_feature_disable(f, i)` clears bit i of f and leaves the other bits (`TransportFeatures.FeatureDisable`), also a driver macro.
- The transport range bounds `VIRTIO_TRANSPORT_F_START` = 28 and `VIRTIO_TRANSPORT_F_END` = 38 are assumed to be those of the Linux-derived `virtio_config.h`, which is not part of this model. VIRTIO 1.1 chapter 6 reserves transport bits from 24 on; if the header used 24 as the start, bits 24 to 27 would be cleared as well, which this model does not cover.
- The bit numbers 28 (INDIRECT_DESC), 29 (EVENT_IDX) and 32 (VERSION_1) are those VIRTIO 1.1 chapter 6 assigns.
- The 64-bit feature word is modelled as the set of positions of its one bits.
- Virtqueue.VirtQueue.AddBuf: `out + in` is an unbounded sum, so the C unsigned wrap-around of `out + in` is not modelled. The caller must pass at least `out + in` segments.
- Virtqueue.VirtQueue.AddBufIndirect: the code checks only `pa`, and a zero `pa` is refused in every state. Past that check, the model requires what the code silently relies on: a token, `0 < out + in < 2^16`, at least one free descriptor, an indirect table with room for `out + in` entries and distinct from the main table, and enough segments.
- Virtqueue.VirtQueue.DetachBuf: it is static and called only on a live head, so `head < num` with a token there is a precondition.
- Virtqueue.VirtQueue.GetBuf: `*len` is modelled as an in/out value (`len0` in, `len` out).
- `num_added` is kept mod 2^16. Its only use is the `(uint16_t)` subtraction in `vring_kick_prepare`, where this is equivalent.
- The queue set-up code is not part of this model; the constructor stands for a freshly initialised ring.
- `virtio/virtio_serial/vspower.c` (Windows power-IRP dispatch) is not part of this model.
- `virtio/include/win_mfn.h` (address translation macros) is not part of this model.
