/**
 * Notification suppression with event indices (VIRTIO 1.1, section 2.6.7 and
 * 2.6.10): the other side publishes the ring index at which it next wants to be
 * told, and the driver notifies only when its newly published entries cross it.
 */
module EventIndex {
  import opened VirtioTypes

  /** Reducing a value within one period of the 16-bit range, as a uint16_t cast does. */
  lemma Wrap16(x: int)
    requires -0x1_0000 <= x < 0x1_0000
    ensures x % 0x1_0000 == if x < 0 then x + 0x1_0000 else x
  {
  }

  /**
   * vring_need_event(event_idx, new_idx, old): every comparison is on uint16_t.
   * True exactly when the event index is old advanced by fewer steps than new
   * is, counted modulo 2^16, i.e. it falls within the entries published since old.
   */
  function NeedEvent(eventIdx: u16, newIdx: u16, oldIdx: u16): (r: bool)
    ensures r <==> Sub16(eventIdx, oldIdx) < Sub16(newIdx, oldIdx)
  {
    Wrap16(newIdx - eventIdx - 1);
    Wrap16(newIdx - oldIdx);
    Wrap16(eventIdx - oldIdx);
    (newIdx - eventIdx - 1) % 0x1_0000 < (newIdx - oldIdx) % 0x1_0000
  }

  /** The event index lies in the published window when it is old advanced by fewer than new - old steps. */
  lemma InWindow(eventIdx: u16, newIdx: u16, oldIdx: u16)
    ensures NeedEvent(eventIdx, newIdx, oldIdx) <==>
            exists k: u16 :: k < Sub16(newIdx, oldIdx) && Add16(oldIdx, k) == eventIdx
  {
    var k := Sub16(eventIdx, oldIdx);
    Wrap16(eventIdx - oldIdx);
    Wrap16(oldIdx + k - 0x1_0000);
    assert Add16(oldIdx, k) == eventIdx;
    forall j: u16 | Add16(oldIdx, j) == eventIdx ensures j == k {
      Wrap16(oldIdx + j - 0x1_0000);
    }
  }

  /** With nothing published since the last kick, the device is never notified. */
  lemma NothingNewNoKick(eventIdx: u16, idx: u16)
    ensures !NeedEvent(eventIdx, idx, idx)
  {
  }

  /**
   * A device that asked to hear about the entry at old is notified as soon as
   * anything at all has been published since.
   */
  lemma WaitingDeviceIsKicked(newIdx: u16, oldIdx: u16)
    ensures NeedEvent(oldIdx, newIdx, oldIdx) <==> newIdx != oldIdx
  {
    Wrap16(newIdx - oldIdx);
  }
}
