/**
 * The received-block record and the queue that hands blocks from the receiving
 * channels to the worker (src/acars.c:61-62, 142-148, 419-424).  The queue is a
 * chain through `prev` from the oldest block (`blkq_e`) to the newest (`blkq_s`);
 * the locks around it are not modelled.
 */
module Blocks {
  import opened Acars

  /** A block as the receiver fills it: its text, the two CRC bytes, channel, time and level. */
  class MsgBlk {
    var prev: MsgBlk?
    var chn: int
    var t: int
    var len: int
    var lvl: int
    var crc0: bv8
    var crc1: bv8
    const txt: array<bv8>

    /**
     * A freshly allocated block (src/acars.c:428-429): only the channel number is set;
     * the other fields hold whatever the allocation left there.
     */
    constructor (chn: int)
      ensures this.chn == chn && fresh(txt) && txt.Length == TxtCapacity
    {
      this.chn := chn;
      txt := new bv8[TxtCapacity];
    }

    /** The received text. */
    ghost function Text(): seq<bv8>
      reads this, txt
      requires 0 <= len <= txt.Length
    {
      txt[..len]
    }
  }

  /** The block FIFO: `newest` is `blkq_s`, `oldest` is `blkq_e`. */
  class BlockQueue {
    var newest: MsgBlk?
    var oldest: MsgBlk?
    /** The queued blocks, oldest first. */
    ghost var Contents: seq<MsgBlk>

    /**
     * Both ends are null exactly when the queue is empty; each block's `prev` is the
     * block queued after it, the newest block's is null; no block is queued twice.
     */
    ghost predicate Valid()
      reads this, Contents
    {
      && (newest == null <==> Contents == [])
      && (oldest == null <==> Contents == [])
      && (Contents != [] ==>
            oldest == Contents[0] && newest == Contents[|Contents| - 1] && newest.prev == null)
      && (forall i :: 0 <= i < |Contents| - 1 ==> Contents[i].prev == Contents[i + 1])
      && (forall i, j :: 0 <= i < j < |Contents| ==> Contents[i] != Contents[j])
    }

    /** The empty queue of src/acars.c:61-62. */
    constructor ()
      ensures Valid() && Contents == []
    {
      newest, oldest := null, null;
      Contents := [];
    }

    /**
     * Enqueue (src/acars.c:420-426): the block becomes the newest, linked from the
     * previous newest through its `prev`; only `prev` fields change.
     */
    method Enqueue(b: MsgBlk)
      requires Valid() && b !in Contents
      modifies this, b`prev, Contents`prev
      ensures Valid() && Contents == old(Contents) + [b]
    {
      b.prev := null;
      if newest != null {
        newest.prev := b;
      }
      newest := b;
      if oldest == null {
        oldest := newest;
      }
      Contents := Contents + [b];
    }

    /**
     * Dequeue (src/acars.c:142-148): the oldest block leaves the queue and its `prev`
     * becomes the oldest; an empty queue gives null where the worker would wait.
     */
    method Dequeue() returns (b: MsgBlk?)
      requires Valid()
      modifies this
      ensures Valid()
      ensures old(Contents) == [] ==> b == null && Contents == []
      ensures old(Contents) != [] ==> b == old(Contents)[0] && Contents == old(Contents)[1..]
    {
      if oldest == null {
        return null;
      }
      b := oldest;
      assert |Contents| > 1 ==> b.prev == Contents[1];
      oldest := b.prev;
      if oldest == null {
        newest := null;
      }
      Contents := Contents[1..];
    }
  }
}
