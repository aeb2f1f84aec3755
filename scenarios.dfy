/**
 * Worked runs of the split virtqueue, checked by the verifier: each method
 * sets up a fresh queue and asserts what the driver sees after each call.
 */
module Scenarios {
  import opened VirtioTypes
  import opened Virtqueue

  /** A four-entry queue takes a one-segment chain into descriptor 0; with nothing used yet, polling finds nothing. */
  method EnqueueThenPoll(t1: int)
  {
    var q := new VirtQueue<int>(4, 0, false);
    var r := q.AddBuf([Segment(0x1000, 512)], 1, 0, Some(t1));
    assert r == 3 && q.availIdx == 1 && q.availRing[0] == 0;
    var b, len := q.GetBuf(7);
    assert b == None && len == 7 && q.numFree == 3;
  }

  /** Once the device reports descriptor 0 used, polling returns its token and length and frees the descriptor. */
  method EnqueueThenComplete(t1: int)
  {
    var q := new VirtQueue<int>(4, 0, false);
    var r := q.AddBuf([Segment(0x1000, 512)], 1, 0, Some(t1));
    assert q.data[0] == Some(t1) && q.numFree == 3 && |q.layout.chains[0]| == 1;
    q.DeviceCompletes(0, 0);
    assert q.usedRing[0] == UsedElem(0, 0) && q.usedIdx == 1 && q.lastUsedIdx == 0;
    var b, len := q.GetBuf(7);
    assert b == Some(t1) && len == 0;
    assert q.numFree == 4 && q.lastUsedIdx == 1;
  }

  /** A two-segment chain fills a two-entry queue; the next chain is refused and nothing moves, but the device is told. */
  method FullQueueRefuses(t1: int, t2: int)
  {
    var q := new VirtQueue<int>(2, 3, false);
    var r := q.AddBuf([Segment(0x1000, 64), Segment(0x2000, 64)], 1, 1, Some(t1));
    assert r == 0;
    ghost var log0 := q.log;
    r := q.AddBuf([Segment(0x3000, 64)], 1, 0, Some(t2));
    assert r == -1 && q.numFree == 0 && q.availIdx == 1;
    assert q.log == log0 + [Notify(3)];
  }

  /** A chain as long as the table fits exactly when every descriptor is free, and leaves none. */
  method WholeTableChain(t1: int)
  {
    var q := new VirtQueue<int>(4, 0, false);
    var sg := [Segment(0x1000, 8), Segment(0x2000, 8), Segment(0x3000, 8), Segment(0x4000, 8)];
    var r := q.AddBuf(sg, 2, 2, Some(t1));
    assert r == 0 && q.numFree == 0;
  }

  /** Five segments do not fit a four-entry table directly, but one indirect slot carries them. */
  method IndirectCarriesLongChain(t1: int)
  {
    var q := new VirtQueue<int>(4, 0, true);
    var sg := [Segment(0x1000, 8), Segment(0x2000, 8), Segment(0x3000, 8), Segment(0x4000, 8), Segment(0x5000, 8)];
    var r := q.AddBuf(sg, 3, 2, Some(t1));
    assert r == -1 && q.numFree == 4;
    var table := new Desc[5](_ => Desc(0, 0, 0, 0));
    r := q.AddBufIndirect(sg, 3, 2, Some(t1), table, 0x8000);
    assert r == 3 && q.numFree == 3;
    assert q.desc[0].flags == DescIndirect && q.desc[0].len == 80;
    assert table[4].next == 0 && !HasNext(table[4].flags) && IsWrite(table[4].flags);
  }
}
