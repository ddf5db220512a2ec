/**
 * A receiving channel in place (src/acars.c:311-439): the fields `initAcars`,
 * `putbit` and `decodeAcars` update, the block being filled, and the hand-over of
 * a finished block to the worker's queue.  Every method is proved to do what the
 * value-level decoder of module Receiver says, read through `View`.
 */
module Channels {
  import opened Wrappers
  import opened Acars
  import opened Blocks
  import opened Receiver

  /** The block holds the frame: its text, both CRC bytes, time and level. */
  ghost predicate Holds(b: MsgBlk, f: Frame)
    reads b`len, b`crc0, b`crc1, b`t, b`lvl, b.txt
  {
    && 0 <= b.len <= b.txt.Length && b.txt[..b.len] == f.text
    && b.crc0 == f.crc0 && b.crc1 == f.crc1 && b.t == f.t && b.lvl == f.lvl
  }

  /** The receiving part of `channel_t`. */
  class Channel {
    const chn: int
    var outbits: bv8
    var nbits: int
    var phase: Phase
    var mskS: bv32
    var blk: MsgBlk

    /**
     * The block buffer belongs to this channel and holds 241 bytes; while a text is
     * collected its length stays within 240 (the TXT state stops at 241), and once
     * complete within the buffer; the bit count never exceeds a byte.
     */
    ghost predicate Valid()
      reads this, blk
    {
      && blk.txt.Length == TxtCapacity && blk.chn == chn
      && nbits <= 8
      && (phase == TXT ==> 0 <= blk.len <= 240)
      && (phase == CRC1 || phase == CRC2 ==> 0 <= blk.len <= TxtCapacity)
    }

    /**
     * The buffer being filled is none of the queued blocks' buffers: as in
     * `msgblk_t`, where `txt` lies inside the block, every block owns its text, so
     * writing the next frame cannot disturb one the worker has yet to read.
     */
    ghost predicate OwnsText(q: BlockQueue)
      reads this, q
    {
      forall b :: b in q.Contents ==> b.txt != blk.txt
    }

    /** The channel as a value: the text so far exists only between SOH and the queueing. */
    ghost function View(): Rx
      reads this, blk, blk.txt
      requires Valid()
    {
      var text := if phase == TXT || phase == CRC1 || phase == CRC2 then blk.txt[..blk.len] else [];
      Rx(phase, outbits, nbits, mskS, text, blk.crc0, blk.t, blk.lvl)
    }

    /**
     * What a decoder step `s` did to the channel and the queue: without a block to
     * queue, the channel is `s`'s state and the queue is as it was; otherwise the old
     * block, holding the queued frame, is now the newest in the queue, and the state
     * is `s`'s apart from the fields of the new block that nothing has set yet.
     */
    ghost predicate Outcome(q: BlockQueue, prior: MsgBlk, queued: seq<MsgBlk>, s: Stepped)
      reads this, blk, blk.txt, q, prior`len, prior`crc0, prior`crc1, prior`t, prior`lvl, prior.txt
      requires Valid()
    {
      && (s.out.None? ==> blk == prior && View() == s.rx && q.Contents == queued)
      && (s.out.Some? ==>
            && View() == s.rx.(crc0 := blk.crc0, t := blk.t, lvl := blk.lvl)
            && q.Contents == queued + [prior] && Holds(prior, s.out.value))
    }

    /**
     * `initAcars` (src/acars.c:310-324): an empty shift register waiting for 8 bits,
     * hunting for SYN, with a fresh block for this channel.  `MskS` is not set there.
     */
    constructor (chn: int)
      ensures Valid() && this.chn == chn && fresh(blk) && fresh(blk.txt)
      ensures outbits == 0 && nbits == 8 && phase == WSYN
    {
      this.chn := chn;
      outbits := 0;
      nbits := 8;
      phase := WSYN;
      blk := new MsgBlk(chn);
    }

    /**
     * `putbit` (src/acars.c:327-335): the bit enters the shift register from the top;
     * when the count runs out the byte is decoded.  Between bits the count stays
     * between 1 and 8.
     */
    method PutBit(bit: bool, q: BlockQueue, now: int, lvl: int)
      requires Valid() && 1 <= nbits && q.Valid() && blk !in q.Contents && OwnsText(q)
      modifies this, blk, blk.txt, q, q.Contents`prev
      ensures Valid() && 1 <= nbits && q.Valid() && blk !in q.Contents && OwnsText(q)
      ensures forall b :: b in old(q.Contents) ==> b.txt[..] == old(b.txt[..])
      ensures var s := BitStep(old(View()), bit, now, lvl);
        Outcome(q, old(blk), old(q.Contents), s) && (s.out.Some? ==> fresh(blk))
    {
      ghost var v0 := View();
      ShiftBit(bit);
      assert View() == Shift(v0, bit);
      if nbits <= 0 {
        BitDecodes(v0, bit, now, lvl);
        DecodeAcars(q, now, lvl);
      } else {
        BitShifts(v0, bit, now, lvl);
      }
    }

    /** The first half of `putbit` (src/acars.c:329-333): the bit enters at the top, the count goes down. */
    method ShiftBit(bit: bool)
      modifies this
      ensures outbits == ShiftIn(old(outbits), bit) && nbits == old(nbits) - 1
      ensures phase == old(phase) && mskS == old(mskS) && blk == old(blk)
    {
      outbits := outbits >> 1;
      if bit {
        outbits := outbits | 0x80;
      }
      nbits := nbits - 1;
    }

    /**
     * `decodeAcars` (src/acars.c:337-439) on the byte in the shift register, with
     * `now` the clock at SOH and `lvl` the level at the second CRC byte.  A block is
     * queued exactly when the decoder says so, and a fresh one takes its place.
     */
    method DecodeAcars(q: BlockQueue, now: int, lvl: int)
      requires Valid() && q.Valid() && blk !in q.Contents && OwnsText(q)
      modifies this, blk, blk.txt, q, q.Contents`prev
      ensures Valid() && q.Valid() && blk !in q.Contents && OwnsText(q)
      ensures forall b :: b in old(q.Contents) ==> b.txt[..] == old(b.txt[..])
      ensures var s := Next(old(View()), old(outbits), now, lvl);
        Outcome(q, old(blk), old(q.Contents), s) && (s.out.Some? ==> fresh(blk))
    {
      match phase
      case WSYN => FirstSyn(now, lvl);
      case SYN2 => SecondSyn(now, lvl);
      case SOH1 => Heading(now, lvl);
      case TXT => Collect(q, now, lvl);
      case CRC1 => FirstCrc(now, lvl);
      case CRC2 => SecondCrc(q, now, lvl);
      case END => Restart(now, lvl);
    }

    /** WSYN (src/acars.c:343-356): a SYN, upright or inverted, moves on; anything else resumes the bit-by-bit hunt. */
    method FirstSyn(now: int, lvl: int)
      requires Valid() && phase == WSYN
      modifies this
      ensures Valid() && blk == old(blk)
      ensures var s := Next(old(View()), old(outbits), now, lvl);
        s.out.None? && View() == s.rx
    {
      var r := outbits;
      if r == SYN {
        phase := SYN2;
        nbits := 8;
      } else if r == InvSYN {
        mskS := mskS ^ 2;
        phase := SYN2;
        nbits := 8;
      } else {
        nbits := 1;
      }
    }

    /** SYN2 (src/acars.c:358-371): a second SYN leads to SOH1, an inverted one keeps waiting. */
    method SecondSyn(now: int, lvl: int)
      requires Valid() && phase == SYN2
      modifies this
      ensures Valid() && blk == old(blk)
      ensures var s := Next(old(View()), old(outbits), now, lvl);
        s.out.None? && View() == s.rx
    {
      var r := outbits;
      if r == SYN {
        phase := SOH1;
        nbits := 8;
      } else if r == InvSYN {
        mskS := mskS ^ 2;
        nbits := 8;
      } else {
        phase := WSYN;
        nbits := 1;
      }
    }

    /** SOH1 (src/acars.c:373-384): SOH starts an empty text stamped with the clock. */
    method Heading(now: int, lvl: int)
      requires Valid() && phase == SOH1
      modifies this, blk`t, blk`len
      ensures Valid() && blk == old(blk)
      ensures var s := Next(old(View()), old(outbits), now, lvl);
        s.out.None? && View() == s.rx
    {
      var r := outbits;
      if r == SOH {
        blk.t := now;
        phase := TXT;
        blk.len := 0;
        nbits := 8;
      } else {
        phase := WSYN;
        nbits := 1;
      }
    }

    /** END (src/acars.c:434-437): back to the hunt, a whole byte at a time. */
    method Restart(now: int, lvl: int)
      requires Valid() && phase == END
      modifies this
      ensures Valid() && blk == old(blk)
      ensures var s := Next(old(View()), old(outbits), now, lvl);
        s.out.None? && View() == s.rx
    {
      phase := WSYN;
      nbits := 8;
    }

    /**
     * TXT (src/acars.c:386-409): the byte is stored; ETX or ETB ends the text, a DLE
     * after the 20th byte means the terminator was missed and the last three bytes
     * give the CRC, and a text past 240 bytes is dropped.
     */
    method Collect(q: BlockQueue, now: int, lvl: int)
      requires Valid() && phase == TXT && q.Valid() && blk !in q.Contents && OwnsText(q)
      modifies this, blk, blk.txt, q, q.Contents`prev
      ensures Valid() && q.Valid() && blk !in q.Contents && OwnsText(q)
      ensures forall b :: b in old(q.Contents) ==> b.txt[..] == old(b.txt[..])
      ensures var s := Next(old(View()), old(outbits), now, lvl);
        Outcome(q, old(blk), old(q.Contents), s) && (s.out.Some? ==> fresh(blk))
    {
      ghost var v0 := View();
      var r := outbits;
      Store(r);
      if r == ETX || r == ETB {
        TextEnd(v0, now, lvl);
      } else if blk.len > 20 && r == DLE {
        MissedEnd(q, v0, now, lvl);
      } else {
        TextMore(v0, now, lvl);
      }
    }

    /** The byte is written at the end of the text (src/acars.c:387-388). */
    method Store(r: bv8)
      requires Valid() && phase == TXT
      modifies blk`len, blk.txt
      ensures blk.len == old(blk.len) + 1 && blk.txt[..blk.len] == old(blk.txt[..blk.len]) + [r]
    {
      blk.txt[blk.len] := r;
      blk.len := blk.len + 1;
    }

    /** The channel in TXT with the byte of `v0` just stored after `v0`'s text. */
    ghost predicate Stored(v0: Rx)
      reads this, blk, blk.txt
    {
      && blk.txt.Length == TxtCapacity && blk.chn == chn && phase == TXT && v0.phase == TXT
      && 1 <= blk.len <= TxtCapacity && blk.txt[..blk.len] == v0.text + [v0.outbits]
      && outbits == v0.outbits && nbits == v0.nbits && v0.nbits <= 8 && mskS == v0.mskS
      && blk.crc0 == v0.crc0 && blk.t == v0.t && blk.lvl == v0.lvl
    }

    /** ETX or ETB ends the text (src/acars.c:389-393). */
    method TextEnd(ghost v0: Rx, now: int, lvl: int)
      requires Stored(v0) && (outbits == ETX || outbits == ETB)
      modifies this
      ensures Valid() && blk == old(blk)
      ensures var s := Next(v0, v0.outbits, now, lvl);
        s.out.None? && View() == s.rx
    {
      phase := CRC1;
      nbits := 8;
    }

    /**
     * A DLE once 20 bytes are in (src/acars.c:394-401): the last three bytes were the
     * two CRC bytes and the DLE, so the text is cut before them and the block queued.
     */
    method MissedEnd(q: BlockQueue, ghost v0: Rx, now: int, lvl: int)
      requires Stored(v0) && outbits != ETX && outbits != ETB && outbits == DLE && blk.len > 20
      requires q.Valid() && blk !in q.Contents && OwnsText(q)
      modifies this, blk, q, q.Contents`prev
      ensures Valid() && q.Valid() && blk !in q.Contents && OwnsText(q) && fresh(blk)
      ensures var s := Next(v0, v0.outbits, now, lvl);
        Outcome(q, old(blk), old(q.Contents), s)
    {
      ghost var text := v0.text + [v0.outbits];
      ghost var n := |text| - 3;
      ghost var s := Next(v0, v0.outbits, now, lvl);
      assert s == Stepped(v0.(text := [], phase := END, nbits := 8), Some(Frame(text[..n], text[n], text[n + 1], v0.t, v0.lvl)));
      blk.len := blk.len - 3;
      blk.crc0 := blk.txt[blk.len];
      blk.crc1 := blk.txt[blk.len + 1];
      assert blk.txt[..blk.len] == text[..n];
      Emit(q, s);
    }

    /** Any other byte (src/acars.c:402-409): the text goes on, unless it is now past 240 bytes. */
    method TextMore(ghost v0: Rx, now: int, lvl: int)
      requires Stored(v0) && outbits != ETX && outbits != ETB && !(blk.len > 20 && outbits == DLE)
      modifies this
      ensures Valid() && blk == old(blk)
      ensures var s := Next(v0, v0.outbits, now, lvl);
        s.out.None? && View() == s.rx
    {
      if blk.len > 240 {
        phase := WSYN;
        nbits := 1;
      } else {
        nbits := 8;
      }
    }

    /** CRC1 (src/acars.c:411-415): the first CRC byte. */
    method FirstCrc(now: int, lvl: int)
      requires Valid() && phase == CRC1
      modifies this, blk`crc0
      ensures Valid() && blk == old(blk)
      ensures var s := Next(old(View()), old(outbits), now, lvl);
        s.out.None? && View() == s.rx
    {
      blk.crc0 := outbits;
      phase := CRC2;
      nbits := 8;
    }

    /** CRC2 (src/acars.c:416-418): the second CRC byte and the level complete the block. */
    method SecondCrc(q: BlockQueue, now: int, lvl: int)
      requires Valid() && phase == CRC2 && q.Valid() && blk !in q.Contents && OwnsText(q)
      modifies this, blk, q, q.Contents`prev
      ensures Valid() && q.Valid() && blk !in q.Contents && OwnsText(q) && fresh(blk)
      ensures var s := Next(old(View()), old(outbits), now, lvl);
        Outcome(q, old(blk), old(q.Contents), s)
    {
      ghost var s := Next(View(), outbits, now, lvl);
      blk.crc1 := outbits;
      blk.lvl := lvl;
      Emit(q, s);
    }

    /**
     * Queueing the finished block (src/acars.c:419-433): the block, holding the frame
     * the step `s` queues, becomes the newest in the queue, a fresh block for this
     * channel takes its place, and the decoder waits in END for the next byte.
     */
    method Emit(q: BlockQueue, ghost s: Stepped)
      requires Valid() && q.Valid() && blk !in q.Contents && OwnsText(q)
      requires s.out.Some? && Holds(blk, s.out.value)
      requires s.rx.phase == END && s.rx.nbits == 8 && s.rx.text == []
      requires s.rx.outbits == outbits && s.rx.mskS == mskS
      modifies this, blk`prev, q, q.Contents`prev
      ensures Valid() && q.Valid() && blk !in q.Contents && OwnsText(q)
      ensures fresh(blk) && fresh(blk.txt)
      ensures Outcome(q, old(blk), old(q.Contents), s)
    {
      q.Enqueue(blk);
      blk := new MsgBlk(chn);
      phase := END;
      nbits := 8;
    }
  }
}
