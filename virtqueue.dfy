/**
 * The split virtqueue a driver owns (virtio_ring.c): the descriptor table, the
 * available ring it publishes, the used ring the device fills, and the
 * driver's own bookkeeping (free list head and count, last used index seen,
 * buffers added since the last kick, and a token per chain head).
 *
 * The used ring and the index of the next used entry are written by the
 * device; the methods Device* stand for those writes. Memory barriers and
 * doorbell writes are recorded, in program order, in the ghost `log`.
 */
module Virtqueue {
  import opened VirtioTypes
  import opened SplitLayout
  import opened EventIndex

  /** The lowest descriptor index that holds a token, as vring_detach_unused_buf's scan finds it. */
  function FirstLive<T>(tokens: seq<Option<T>>, from: nat): (r: Option<nat>)
    ensures r.Some? ==> from <= r.value < |tokens| && tokens[r.value].Some?
    ensures forall j :: from <= j < |tokens| && (r.None? || j < r.value) ==> tokens[j].None?
    decreases |tokens| - from
  {
    if from >= |tokens| then None
    else if tokens[from].Some? then Some(from)
    else FirstLive(tokens, from + 1)
  }

  /** How many descriptors hold a token: the live chains. */
  function LiveCount<T>(tokens: seq<Option<T>>): (r: nat)
    ensures r <= |tokens|
  {
    if tokens == [] then 0 else (if tokens[0].Some? then 1 else 0) + LiveCount(tokens[1..])
  }

  /** Taking the token out of a live slot leaves one live chain fewer. */
  lemma {:induction false} LiveCountClear<T>(tokens: seq<Option<T>>, h: nat)
    requires h < |tokens| && tokens[h].Some?
    ensures LiveCount(tokens[h := None]) == LiveCount(tokens) - 1
  {
    if h > 0 {
      assert tokens[h := None][1..] == tokens[1..][h - 1 := None];
      LiveCountClear(tokens[1..], h - 1);
    } else {
      assert tokens[h := None][1..] == tokens[1..];
    }
  }

  /** The teardown scan finds nothing exactly when no chain is live, so repeated calls stop after LiveCount calls. */
  lemma {:induction false} ScanFindsLive<T>(tokens: seq<Option<T>>, from: nat)
    requires from <= |tokens|
    ensures FirstLive(tokens, from).None? <==> LiveCount(tokens[from..]) == 0
    decreases |tokens| - from
  {
    if from < |tokens| {
      assert tokens[from..][1..] == tokens[from + 1..];
      ScanFindsLive(tokens, from + 1);
    }
  }

  /** Disabling and then re-enabling interrupts restores the available ring's flags when they were enabled before. */
  lemma DisableThenEnable(flags: bv16)
    ensures (flags | AvailNoInterrupt) & !AvailNoInterrupt == flags & !AvailNoInterrupt
    ensures flags & AvailNoInterrupt == 0 <==> (flags | AvailNoInterrupt) & !AvailNoInterrupt == flags
  {
  }

  /**
   * Entry k of an indirect table holding n segments, the first `outCount`
   * device-readable: the segment's address and length, NEXT on all but the last
   * entry, and `next` the following entry (0 on the last).
   */
  function IndirectEntry(sg: seq<Segment>, outCount: nat, n: nat, k: nat): Desc
    requires k < n <= |sg| && n <= 0x1_0000
  {
    Desc(sg[k].physAddr, sg[k].len, ChainFlags(k, outCount, n), if k + 1 < n then k + 1 else 0)
  }

  /**
   * The two loops of vring_add_buf_indirect and the fix-up after them: entry
   * i of the table gets segment i with `next` i + 1; the last entry then loses
   * NEXT and gets `next` 0. The rest of the table is left alone.
   */
  method FillIndirect(table: array<Desc>, sg: seq<Segment>, outCount: nat, inCount: nat)
    requires 0 < outCount + inCount < 0x1_0000 && outCount + inCount <= |sg| && outCount + inCount <= table.Length
    modifies table
    ensures forall k :: 0 <= k < outCount + inCount ==> table[k] == IndirectEntry(sg, outCount, outCount + inCount, k)
    ensures forall k :: outCount + inCount <= k < table.Length ==> table[k] == old(table[k])
  {
    var n := outCount + inCount;
    var i := 0;
    while i < outCount
      invariant 0 <= i <= outCount
      invariant forall k :: 0 <= k < i ==> table[k] == Desc(sg[k].physAddr, sg[k].len, DescNext, k + 1)
      invariant forall k :: i <= k < table.Length ==> table[k] == old(table[k])
    {
      table[i] := Desc(sg[i].physAddr, sg[i].len, DescNext, i + 1);
      i := i + 1;
    }
    while i < n
      invariant outCount <= i <= n
      invariant forall k :: 0 <= k < i ==> table[k] == Desc(sg[k].physAddr, sg[k].len, LoopFlags(k, outCount), k + 1)
      invariant forall k :: i <= k < table.Length ==> table[k] == old(table[k])
    {
      table[i] := Desc(sg[i].physAddr, sg[i].len, DescNext | DescWrite, i + 1);
      i := i + 1;
    }
    // Last one doesn't continue.
    table[i - 1] := table[i - 1].(flags := WithoutNext(table[i - 1].flags));
    table[i - 1] := table[i - 1].(next := 0);
  }

  class VirtQueue<T> {
    /** vring.num: the size of the descriptor table and of both rings. */
    const num: nat
    /** The queue's selector, written to the notification register. */
    const qidx: u16
    /** VIRTIO_RING_F_EVENT_IDX was negotiated. */
    const useEventIdx: bool

    const desc: array<Desc>
    const data: array<Option<T>>
    /** avail->ring[0 .. num - 1]. */
    const availRing: array<u16>
    /** used->ring[0 .. num - 1]. */
    const usedRing: array<UsedElem>

    var availFlags: bv16
    var availIdx: u16
    /** vring_used_event: avail->ring[num], where the driver asks to be interrupted. */
    var usedEvent: u16
    var usedFlags: bv16
    var usedIdx: u16
    /** vring_avail_event: used->ring[num], where the device asks to be notified. */
    var availEvent: u16

    var freeHead: u16
    var numFree: nat
    var lastUsedIdx: u16
    var numAdded: u16

    /** Which descriptors are free, in list order, and which chain each live one is on. */
    ghost var layout: Layout
    /** Barriers and notifications, in the order the driver issued them. */
    ghost var log: seq<Event>

    ghost predicate Valid()
      reads this, desc, data
    {
      desc.Length == num && data.Length == num && availRing.Length == num && usedRing.Length == num
      && Wf(num, desc[..], data[..], freeHead, numFree, layout)
    }

    /** A freshly set-up queue: every descriptor free, linked 0 -> 1 -> ... -> n - 1, every index zero. */
    constructor (n: nat, selector: u16, eventIdx: bool)
      requires 0 < n <= 0x8000
      ensures Valid() && fresh(desc) && fresh(data) && fresh(availRing) && fresh(usedRing)
      ensures num == n && qidx == selector && useEventIdx == eventIdx
      ensures numFree == n && freeHead == 0 && availIdx == 0 && usedIdx == 0 && lastUsedIdx == 0 && numAdded == 0
      ensures availFlags == 0 && usedFlags == 0 && usedEvent == 0 && availEvent == 0
      ensures forall d :: 0 <= d < n ==> data[d].None?
      ensures layout.freeList == Iota(n) && log == []
    {
      num, qidx, useEventIdx := n, selector, eventIdx;
      desc := new Desc[n](i requires 0 <= i < n => Desc(0, 0, 0, if i + 1 < n then i + 1 else 0));
      data := new Option<T>[n](_ => None);
      availRing := new u16[n](_ => 0);
      usedRing := new UsedElem[n](_ => UsedElem(0, 0));
      availFlags, availIdx, usedEvent := 0, 0, 0;
      usedFlags, usedIdx, availEvent := 0, 0, 0;
      freeHead, numFree, lastUsedIdx, numAdded := 0, n, 0, 0;
      layout := Layout(Iota(n), seq(n, _ => []), seq(n, _ => -1));
      log := [];
      new;
      InitWf(n, desc[..], data[..]);
    }

    /** vring_queue_notify: write the queue selector to the notification register. */
    method QueueNotify()
      modifies this`log
      ensures log == old(log) + [Notify(qidx)]
    {
      log := log + [Notify(qidx)];
    }

    /**
     * detach_buf: clear the token at head, walk the chain along NEXT flags
     * counting its descriptors back into num_free, link its tail to the old free
     * head and make head the new free head.
     */
    method DetachBuf(head: nat)
      requires Valid() && head < num && data[head].Some?
      modifies this`freeHead, this`numFree, this`layout, desc, data
      ensures Valid()
      ensures Follow(old(desc[..]), head, num) == old(layout.chains[head])
      ensures desc[..] == Reclaimed(old(desc[..]), head, old(freeHead))
      ensures numFree == old(numFree) + |Follow(old(desc[..]), head, num)|
      ensures data[..] == old(data[..])[head := None]
      ensures freeHead == head
      ensures layout == DetachLayout(old(layout), head)
    {
      ghost var descs0 := desc[..];
      ghost var tokens0 := data[..];
      ghost var L := layout;
      ghost var chain := L.chains[head];
      ChainIsFollow(num, descs0, tokens0, freeHead, numFree, L, head);
      assert ChainOk(num, descs0, tokens0, L, head);
      data[head] := None;
      var i := head;
      ghost var k := 0;
      while HasNext(desc[i].flags)
        invariant 0 <= k < |chain| && i == chain[k] && i < num
        invariant numFree == old(numFree) + k
        invariant desc[..] == descs0 && data[..] == tokens0[head := None]
        invariant freeHead == old(freeHead) && layout == L
        decreases |chain| - k
      {
        i := desc[i].next;
        numFree := numFree + 1;
        k := k + 1;
      }
      assert k == |chain| - 1 && i == Tail(L, head);
      desc[i] := desc[i].(next := freeHead);
      assert desc[..] == descs0[i := descs0[i].(next := old(freeHead))];
      freeHead := head;
      numFree := numFree + 1;
      DetachPreservesWf(num, descs0, tokens0, old(freeHead), old(numFree), L, head);
      layout := DetachLayout(L, head);
    }

    /**
     * One of the two loops of vring_add_buf: `count` descriptors, continuing
     * the walk along `next` from i0, receive segments k0, k0 + 1, ... with the
     * same flags (NEXT for the device-readable run, NEXT | WRITE for the
     * device-writable one). Returns where the walk stopped and the last
     * descriptor written. `fl` is the free list the walk follows.
     */
    method FillRun(sg: seq<Segment>, outCount: nat, ghost fl: seq<nat>, ghost descs0: seq<Desc>,
                   k0: nat, count: nat, flags: bv16, i0: nat, prev0: nat) returns (i: nat, prev: nat)
      requires desc.Length == |descs0| && Linked(descs0, fl) && 0 < |fl|
      requires k0 + count <= |fl| && k0 + count <= |sg|
      requires forall k :: k0 <= k < k0 + count ==> LoopFlags(k, outCount) == flags
      requires i0 == Walk(descs0, fl[0], k0) && (k0 < |fl| ==> i0 == fl[k0])
      requires 0 < k0 ==> prev0 == fl[k0 - 1]
      requires desc[..] == Fill(descs0, fl, sg, outCount, k0)
      modifies desc
      ensures i == Walk(descs0, fl[0], k0 + count) && (k0 + count < |fl| ==> i == fl[k0 + count])
      ensures 0 < k0 + count ==> prev == fl[k0 + count - 1]
      ensures desc[..] == Fill(descs0, fl, sg, outCount, k0 + count)
    {
      i, prev := i0, prev0;
      var k := k0;  // segments consumed: sg++ in the source
      var left: nat := count;
      while left > 0
        invariant k0 <= k && k + left == k0 + count
        invariant i == Walk(descs0, fl[0], k) && (k < |fl| ==> i == fl[k])
        invariant 0 < k ==> prev == fl[k - 1]
        invariant desc[..] == Fill(descs0, fl, sg, outCount, k)
      {
        WalkStep(descs0, fl[0], k);
        FillKeepsNext(descs0, fl, sg, outCount, k, i);
        ghost var before := desc[..];
        desc[i] := desc[i].(addr := sg[k].physAddr, len := sg[k].len, flags := flags);
        assert desc[..] == before[i := before[i].(addr := sg[k].physAddr, len := sg[k].len, flags := LoopFlags(k, outCount))];
        prev := i;
        i := desc[i].next;
        k := k + 1;
        left := left - 1;
      }
    }

    /**
     * The two loops of vring_add_buf: the n = out + in descriptors reached from
     * free_head along `next` (the first n free ones, fl) receive the segments
     * in order, all flagged NEXT, the device-writable ones also WRITE. Returns
     * where the walk ends and the last descriptor written.
     */
    method FillChain(sg: seq<Segment>, outCount: nat, inCount: nat, ghost fl: seq<nat>) returns (i: nat, prev: nat)
      requires desc.Length == num
      requires 0 < outCount + inCount <= |fl| && outCount + inCount <= |sg|
      requires Linked(desc[..], fl) && freeHead == fl[0]
      modifies desc
      ensures i == Walk(old(desc[..]), freeHead, outCount + inCount)
      ensures outCount + inCount < |fl| ==> i == fl[outCount + inCount]
      ensures prev == fl[outCount + inCount - 1]
      ensures desc[..] == Fill(old(desc[..]), fl, sg, outCount, outCount + inCount)
    {
      ghost var descs0 := desc[..];
      i, prev := FillRun(sg, outCount, fl, descs0, 0, outCount, DescNext, freeHead, 0);
      i, prev := FillRun(sg, outCount, fl, descs0, outCount, inCount, DescNext | DescWrite, i, prev);
    }

    /**
     * The two loops of vring_add_buf and the fix-up after them: the chain is
     * filled as FillChain says and NEXT is cleared on its last descriptor.
     * Returns where the walk ends, which becomes the new free head.
     */
    method WriteChain(sg: seq<Segment>, outCount: nat, inCount: nat, ghost fl: seq<nat>) returns (i: nat)
      requires desc.Length == num
      requires 0 < outCount + inCount <= |fl| && outCount + inCount <= |sg|
      requires Linked(desc[..], fl) && freeHead == fl[0]
      modifies desc
      ensures i == Walk(old(desc[..]), freeHead, outCount + inCount)
      ensures outCount + inCount < |fl| ==> i == fl[outCount + inCount]
      ensures desc[..] == Enqueued(old(desc[..]), fl, sg, outCount, outCount + inCount)
    {
      var prev;
      i, prev := FillChain(sg, outCount, inCount, fl);
      // Last one doesn't continue.
      desc[prev] := desc[prev].(flags := WithoutNext(desc[prev].flags));
    }

    /** The checks vring_add_buf makes before touching the ring: a token, 1 .. num segments, enough free descriptors. */
    ghost predicate AddBufAccepts(token: Option<T>, n: nat)
      reads this
    {
      token.Some? && 0 < n <= num && n <= numFree
    }

    /**
     * vring_add_buf: take the first out + in free descriptors, in free-list
     * order, as one chain: the first `outCount` device-readable, the rest
     * device-writable, NEXT on all but the last, each keeping the `next` link
     * the free list gave it. The head gets the token and goes in the next
     * available slot; after a full barrier avail->idx and num_added advance.
     * Returns the new num_free, or -1 with nothing changed; a full ring with
     * device-readable segments still notifies the device.
     */
    method AddBuf(sg: seq<Segment>, outCount: nat, inCount: nat, token: Option<T>) returns (r: int)
      requires Valid()
      requires outCount + inCount <= |sg|
      modifies this`freeHead, this`numFree, this`layout, this`availIdx, this`numAdded, this`log, desc, data, availRing
      ensures Valid()
      ensures !old(AddBufAccepts(token, outCount + inCount)) ==>
                r == -1 && unchanged(desc, data, availRing)
                && freeHead == old(freeHead) && numFree == old(numFree) && layout == old(layout)
                && availIdx == old(availIdx) && numAdded == old(numAdded)
                && log == old(log) + (if token.Some? && 0 < outCount + inCount <= num && 0 < outCount then [Notify(qidx)] else [])
      ensures old(AddBufAccepts(token, outCount + inCount)) ==>
                var n := outCount + inCount;
                r == numFree && numFree == old(numFree) - n
                && freeHead == Walk(old(desc[..]), old(freeHead), n)
                && desc[..] == Enqueued(old(desc[..]), old(layout.freeList), sg, outCount, n)
                && data[..] == old(data[..])[old(freeHead) := token]
                && availRing[..] == old(availRing[..])[old(availIdx) % num := old(freeHead)]
                && availIdx == Add16(old(availIdx), 1) && numAdded == Add16(old(numAdded), 1)
                && layout == AddLayout(old(layout), n)
                && log == old(log) + [FullBarrier]
    {
      if token.None? {
        return -1;
      }
      if outCount + inCount > num {
        return -1;
      }
      if outCount + inCount == 0 {
        return -1;
      }
      if numFree < outCount + inCount {
        if outCount > 0 {
          QueueNotify();
        }
        return -1;
      }
      r := AddChain(sg, outCount, inCount, token.value);
    }

    /** The success path of vring_add_buf, once its checks have passed. */
    method AddChain(sg: seq<Segment>, outCount: nat, inCount: nat, token: T) returns (r: int)
      requires Valid()
      requires outCount + inCount <= |sg| && AddBufAccepts(Some(token), outCount + inCount)
      modifies this`freeHead, this`numFree, this`layout, this`availIdx, this`numAdded, this`log, desc, data, availRing
      ensures Valid()
      ensures desc[..] == Enqueued(old(desc[..]), old(layout.freeList), sg, outCount, outCount + inCount)
      ensures data[..] == old(data[..])[old(freeHead) := Some(token)]
      ensures availRing[..] == old(availRing[..])[old(availIdx) % num := old(freeHead)]
      ensures availIdx == Add16(old(availIdx), 1) && numAdded == Add16(old(numAdded), 1)
      ensures freeHead == Walk(old(desc[..]), old(freeHead), outCount + inCount)
      ensures numFree == old(numFree) - (outCount + inCount) && r == numFree
      ensures layout == AddLayout(old(layout), outCount + inCount)
      ensures log == old(log) + [FullBarrier]
    {
      ghost var descs0 := desc[..];
      ghost var tokens0 := data[..];
      ghost var L := layout;
      ghost var fl := L.freeList;
      var n := outCount + inCount;
      numFree := numFree - n;
      var head := freeHead;
      var i := WriteChain(sg, outCount, inCount, fl);
      freeHead := i;
      data[head] := Some(token);
      layout := AddLayout(L, n);
      assert desc[..] == Enqueued(descs0, fl, sg, outCount, n);
      assert Valid() by {
        assert data[..] == tokens0[head := Some(token)];
        EnqueuePreservesWf(num, descs0, tokens0, head, old(numFree), L, sg, outCount, n, token, i);
      }
      Publish(head);
      r := numFree;
    }

    /**
     * The publication step both enqueue paths end with: put the chain head in
     * the next available slot, then, after a full barrier, advance avail->idx
     * and num_added.
     */
    method Publish(head: u16)
      requires Valid()
      modifies this`availIdx, this`numAdded, this`log, availRing
      ensures Valid()
      ensures availRing[..] == old(availRing[..])[old(availIdx) % num := head]
      ensures availIdx == Add16(old(availIdx), 1) && numAdded == Add16(old(numAdded), 1)
      ensures log == old(log) + [FullBarrier]
    {
      availRing[availIdx % num] := head;
      log := log + [FullBarrier];
      availIdx := Add16(availIdx, 1);
      numAdded := Add16(numAdded, 1);
    }

    /**
     * vring_add_buf_indirect: write the segments into the caller's indirect
     * table and use a single main-table descriptor, flagged INDIRECT, that
     * points at it. Only a zero table address is rejected, whatever the ring
     * state; past that check the caller must supply a token, a non-empty list
     * that fits the table, and a free slot.
     */
    method AddBufIndirect(sg: seq<Segment>, outCount: nat, inCount: nat, token: Option<T>, table: array<Desc>, pa: u64)
      returns (r: int)
      requires Valid() && table != desc
      requires pa != 0 ==>
                 token.Some? && 0 < numFree
                 && 0 < outCount + inCount < 0x1_0000 && outCount + inCount <= |sg| && outCount + inCount <= table.Length
      modifies this`freeHead, this`numFree, this`layout, this`availIdx, this`numAdded, this`log, desc, data, availRing, table
      ensures Valid()
      ensures pa == 0 ==>
                r == -1 && unchanged(desc, data, availRing, table)
                && freeHead == old(freeHead) && numFree == old(numFree) && layout == old(layout)
                && availIdx == old(availIdx) && numAdded == old(numAdded) && log == old(log)
      ensures pa != 0 ==>
                var n := outCount + inCount;
                var head := old(freeHead);
                (forall k :: 0 <= k < n ==> table[k] == IndirectEntry(sg, outCount, n, k))
                && (forall k :: n <= k < table.Length ==> table[k] == old(table[k]))
                && desc[..] == old(desc[..])[head := Desc(pa, n * DescSize, DescIndirect, old(desc[head]).next)]
                && r == numFree && numFree == old(numFree) - 1
                && freeHead == old(desc[head]).next
                && data[..] == old(data[..])[head := token]
                && availRing[..] == old(availRing[..])[old(availIdx) % num := head]
                && availIdx == Add16(old(availIdx), 1) && numAdded == Add16(old(numAdded), 1)
                && layout == AddLayout(old(layout), 1)
                && log == old(log) + [FullBarrier]
    {
      if pa == 0 {
        return -1;
      }
      FillIndirect(table, sg, outCount, inCount);
      assert Valid();
      var head := TakeIndirectSlot(pa, (outCount + inCount) * DescSize, token.value);
      Publish(head);
      r := numFree;
    }

    /**
     * The main-table half of vring_add_buf_indirect: the first free descriptor
     * becomes a one-descriptor chain pointing at the indirect table, flagged
     * INDIRECT only, and its `next` becomes the free head.
     */
    method TakeIndirectSlot(pa: u64, len: u32, token: T) returns (head: u16)
      requires Valid() && 0 < numFree
      modifies this`freeHead, this`numFree, this`layout, desc, data
      ensures Valid()
      ensures head == old(freeHead) && head < num
      ensures desc[..] == old(desc[..])[head := Desc(pa, len, DescIndirect, old(desc[head]).next)]
      ensures freeHead == old(desc[head]).next && numFree == old(numFree) - 1
      ensures data[..] == old(data[..])[head := Some(token)]
      ensures layout == AddLayout(old(layout), 1)
    {
      IndirectPreservesWf(num, desc[..], data[..], freeHead, numFree, layout, pa, len, token);
      numFree := numFree - 1;
      head := freeHead;
      desc[head] := Desc(pa, len, DescIndirect, desc[head].next);
      freeHead := desc[head].next;
      data[head] := Some(token);
      layout := AddLayout(layout, 1);
    }

    // -------------------------------------------------------------------------
    // Completions

    /** VRING_HAS_UNCONSUMED_RESPONSES: the device has published used entries the driver has not read. */
    ghost predicate HasUnconsumed()
      reads this
    {
      lastUsedIdx != usedIdx
    }

    /** Whether the used entry `e` names a live chain head, the two checks vring_get_buf makes. */
    ghost predicate ValidUsed(e: UsedElem)
      reads this, data
    {
      e.id < num && e.id < data.Length && data[e.id].Some?
    }

    /**
     * vring_get_buf: read the next used entry and, when it names a live chain,
     * reclaim that chain and return its token. `len0` is *len on entry: it is
     * left alone when nothing is pending and overwritten with the entry's
     * length otherwise, even when the entry is then rejected. A rejected entry
     * is not consumed: last_used_idx stays where it was.
     */
    method GetBuf(len0: u32) returns (r: Option<T>, len: u32)
      requires Valid()
      modifies this`freeHead, this`numFree, this`layout, this`lastUsedIdx, this`usedEvent, this`log, desc, data
      ensures Valid()
      ensures !old(HasUnconsumed()) ==> r.None? && len == len0 && unchanged(this) && unchanged(desc, data)
      ensures old(HasUnconsumed()) ==> len == old(usedRing[lastUsedIdx % num]).len
      ensures old(HasUnconsumed()) && !old(ValidUsed(usedRing[lastUsedIdx % num])) ==>
                r.None? && unchanged(desc, data) && log == old(log) + [ReadBarrier]
                && freeHead == old(freeHead) && numFree == old(numFree) && layout == old(layout)
                && lastUsedIdx == old(lastUsedIdx) && usedEvent == old(usedEvent)
      ensures old(HasUnconsumed()) && old(ValidUsed(usedRing[lastUsedIdx % num])) ==>
                var id := old(usedRing[lastUsedIdx % num]).id;
                var published := availFlags & AvailNoInterrupt == 0;
                r == old(data[id]) && r.Some?
                && desc[..] == Reclaimed(old(desc[..]), id, old(freeHead))
                && data[..] == old(data[..])[id := None]
                && freeHead == id && numFree == old(numFree) + |old(layout.chains[id])|
                && layout == DetachLayout(old(layout), id)
                && lastUsedIdx == Add16(old(lastUsedIdx), 1)
                && usedEvent == (if published then lastUsedIdx else old(usedEvent))
                && log == old(log) + [ReadBarrier] + (if published then [FullBarrier] else [])
    {
      len := len0;
      if lastUsedIdx == usedIdx {
        return None, len;
      }
      log := log + [ReadBarrier];
      var e := usedRing[lastUsedIdx % num];
      len := e.len;
      if e.id >= num {
        return None, len;
      }
      if data[e.id].None? {
        return None, len;
      }
      r := data[e.id];
      DetachBuf(e.id);
      lastUsedIdx := Add16(lastUsedIdx, 1);
      if availFlags & AvailNoInterrupt == 0 {
        usedEvent := lastUsedIdx;
        log := log + [FullBarrier];
      }
    }

    /**
     * vring_detach_unused_buf: at teardown, find the lowest-numbered descriptor
     * holding a token, reclaim its chain and take its entry back out of the
     * available index. Returns None, with nothing changed, once no token is left.
     */
    method DetachUnusedBuf() returns (r: Option<T>)
      requires Valid()
      modifies this`freeHead, this`numFree, this`layout, this`availIdx, desc, data
      ensures Valid()
      ensures old(FirstLive(data[..], 0)).None? ==> r.None? && unchanged(this) && unchanged(desc, data)
      ensures old(FirstLive(data[..], 0)).Some? ==>
                var h := old(FirstLive(data[..], 0)).value;
                r == old(data[h]) && r.Some?
                && desc[..] == Reclaimed(old(desc[..]), h, old(freeHead))
                && data[..] == old(data[..])[h := None]
                && freeHead == h && numFree == old(numFree) + |old(layout.chains[h])|
                && layout == DetachLayout(old(layout), h)
                && availIdx == Sub16(old(availIdx), 1)
      ensures LiveCount(data[..]) == if r.Some? then old(LiveCount(data[..])) - 1 else old(LiveCount(data[..]))
    {
      var i := 0;
      while i < num
        invariant 0 <= i <= num
        invariant FirstLive(data[..], 0) == FirstLive(data[..], i)
      {
        if data[i].Some? {
          r := data[i];
          LiveCountClear(data[..], i);
          DetachBuf(i);
          availIdx := Sub16(availIdx, 1);
          return;
        }
        i := i + 1;
      }
      r := None;
    }

    // -------------------------------------------------------------------------
    // Notifications and interrupt suppression

    /** The decision vring_kick_prepare makes, before it clears num_added. */
    ghost predicate KickNeeded()
      reads this
    {
      if useEventIdx then NeedEvent(availEvent, availIdx, Sub16(availIdx, numAdded))
      else usedFlags & UsedNoNotify == 0
    }

    /**
     * vring_kick_prepare: after a full barrier, decide whether the device must be
     * told about the entries published since the last kick, and start counting
     * afresh.
     */
    method KickPrepare() returns (needsKick: bool)
      modifies this`numAdded, this`log
      ensures needsKick == old(KickNeeded())
      ensures numAdded == 0 && log == old(log) + [FullBarrier]
    {
      log := log + [FullBarrier];
      var oldIdx := Sub16(availIdx, numAdded);
      var newIdx := availIdx;
      numAdded := 0;
      if useEventIdx {
        needsKick := NeedEvent(availEvent, newIdx, oldIdx);
      } else {
        needsKick := usedFlags & UsedNoNotify == 0;
      }
    }

    /** vring_kick: notify the device when vring_kick_prepare says so. */
    method Kick()
      modifies this`numAdded, this`log
      ensures numAdded == 0
      ensures log == old(log) + [FullBarrier] + (if old(KickNeeded()) then [Notify(qidx)] else [])
    {
      var needsKick := KickPrepare();
      if needsKick {
        QueueNotify();
      }
    }

    /** vring_kick_always: notify the device whatever it asked for. */
    method KickAlways()
      modifies this`numAdded, this`log
      ensures numAdded == 0
      ensures log == old(log) + [WriteBarrier, FullBarrier, Notify(qidx)]
    {
      log := log + [WriteBarrier];
      numAdded := 0;
      log := log + [FullBarrier];
      QueueNotify();
    }

    /** vring_disable_interrupt: set NO_INTERRUPT in the available ring's flags, leaving the other bits. */
    method DisableInterrupt()
      modifies this`availFlags, this`log
      ensures availFlags & AvailNoInterrupt != 0
      ensures availFlags & !AvailNoInterrupt == old(availFlags) & !AvailNoInterrupt
      ensures log == old(log) + [FullBarrier]
    {
      availFlags := availFlags | AvailNoInterrupt;
      log := log + [FullBarrier];
    }

    /** vring_enable_interrupt: clear NO_INTERRUPT, leaving the other bits; always reports success. */
    method EnableInterrupt() returns (ok: bool)
      modifies this`availFlags, this`log
      ensures ok
      ensures availFlags & AvailNoInterrupt == 0
      ensures availFlags & !AvailNoInterrupt == old(availFlags) & !AvailNoInterrupt
      ensures log == old(log) + [FullBarrier]
    {
      availFlags := availFlags & !AvailNoInterrupt;
      log := log + [FullBarrier];
      ok := true;
    }

    // -------------------------------------------------------------------------
    // The device's writes, which the driver only reads

    /** The device completes chain `id`, having written `len` bytes: one more used entry. */
    method DeviceCompletes(id: u32, len: u32)
      requires usedRing.Length == num && 0 < num
      modifies this`usedIdx, usedRing
      ensures usedRing[..] == old(usedRing[..])[old(usedIdx) % num := UsedElem(id, len)]
      ensures usedIdx == Add16(old(usedIdx), 1)
    {
      usedRing[usedIdx % num] := UsedElem(id, len);
      usedIdx := Add16(usedIdx, 1);
    }

    /** The device rewrites the used ring's flags (VRING_USED_F_NO_NOTIFY). */
    method DeviceSetsUsedFlags(flags: bv16)
      modifies this`usedFlags
      ensures usedFlags == flags
    {
      usedFlags := flags;
    }

    /** The device publishes the available index at which it next wants a notification. */
    method DeviceSetsAvailEvent(e: u16)
      modifies this`availEvent
      ensures availEvent == e
    {
      availEvent := e;
    }
  }

  /** The queue behind a possibly-NULL pointer, as a frame. */
  function QueueFrame<T>(vq: VirtQueue?<T>): set<VirtQueue<T>>
  {
    if vq == null then {} else {vq}
  }

  /** vring_start_interrupts: on a queue that exists, re-enable interrupts and kick the device. */
  method StartInterrupts<T>(vq: VirtQueue?<T>)
    modifies QueueFrame(vq)`availFlags, QueueFrame(vq)`numAdded, QueueFrame(vq)`log
    ensures vq != null ==>
              vq.availFlags & AvailNoInterrupt == 0
              && vq.availFlags & !AvailNoInterrupt == old(vq.availFlags) & !AvailNoInterrupt
              && vq.numAdded == 0
              && vq.log == old(vq.log) + [FullBarrier, FullBarrier] + (if old(vq.KickNeeded()) then [Notify(vq.qidx)] else [])
  {
    if vq != null {
      var _ := vq.EnableInterrupt();
      vq.Kick();
    }
  }

  /** vring_stop_interrupts: on a queue that exists, disable interrupts. */
  method StopInterrupts<T>(vq: VirtQueue?<T>)
    modifies QueueFrame(vq)`availFlags, QueueFrame(vq)`log
    ensures vq != null ==>
              vq.availFlags & AvailNoInterrupt != 0
              && vq.availFlags & !AvailNoInterrupt == old(vq.availFlags) & !AvailNoInterrupt
              && vq.log == old(vq.log) + [FullBarrier]
  {
    if vq != null {
      vq.DisableInterrupt();
    }
  }
}
