/**
 * Wire-level types and constants of the split virtqueue (VIRTIO 1.1, section 2.6):
 * fixed-width integers, descriptor and used-ring element layouts, and flag bits.
 */
module VirtioTypes {

  /** C's uint16_t, uint32_t and uint64_t; wrap-around is written out where the source relies on it. */
  type u16 = x: int | 0 <= x < 0x1_0000
  type u32 = x: int | 0 <= x < 0x1_0000_0000
  type u64 = x: int | 0 <= x < 0x1_0000_0000_0000_0000

  /** 16-bit wrapping increment and decrement of ring indices. */
  function Add16(a: u16, b: u16): u16 { (a + b) % 0x1_0000 }
  function Sub16(a: u16, b: u16): u16 { (a - b) % 0x1_0000 }

  /** Descriptor flags (VIRTIO 1.1 section 2.6.5). */
  const DescNext: bv16 := 1
  const DescWrite: bv16 := 2
  const DescIndirect: bv16 := 4

  /** Available-ring flag: the driver does not want interrupts (VIRTIO 1.1 section 2.6.6). */
  const AvailNoInterrupt: bv16 := 1
  /** Used-ring flag: the device does not want notifications (VIRTIO 1.1 section 2.6.8). */
  const UsedNoNotify: bv16 := 1

  /** sizeof(struct vring_desc): 8 + 4 + 2 + 2 bytes. */
  const DescSize: nat := 16

  datatype Option<T> = None | Some(value: T)

  /** One entry of the descriptor table, or of an indirect table. */
  datatype Desc = Desc(addr: u64, len: u32, flags: bv16, next: u16)

  /** One entry of the used ring: chain head and bytes written by the device. */
  datatype UsedElem = UsedElem(id: u32, len: u32)

  /** One entry of the caller's scatter list (virtio_buffer_descriptor_t). */
  datatype Segment = Segment(physAddr: u64, len: u32)

  /** Ordering-relevant side effects the driver performs, in program order. */
  datatype Event = FullBarrier | WriteBarrier | ReadBarrier | Notify(queue: u16)

  predicate HasNext(flags: bv16) { flags & DescNext != 0 }

  /** flags &= ~VRING_DESC_F_NEXT: NEXT cleared, every other bit kept. */
  function WithoutNext(flags: bv16): bv16 { flags & !DescNext }
  predicate IsWrite(flags: bv16) { flags & DescWrite != 0 }
  predicate IsIndirect(flags: bv16) { flags & DescIndirect != 0 }

  /**
   * The flags the enqueue paths give the k-th of n chain entries when the first
   * `outCount` are device-readable: NEXT on every entry but the last, WRITE on
   * the device-writable ones.
   */
  function ChainFlags(k: nat, outCount: nat, n: nat): (r: bv16)
    ensures HasNext(r) <==> k + 1 != n
    ensures IsWrite(r) <==> outCount <= k
    ensures !IsIndirect(r)
  {
    if k + 1 == n then WithoutNext(LoopFlags(k, outCount)) else LoopFlags(k, outCount)
  }

  /** The flags the enqueue loops write: NEXT, plus WRITE past the first `outCount` entries. */
  function LoopFlags(k: nat, outCount: nat): bv16
  {
    if k < outCount then DescNext else DescNext | DescWrite
  }
}
