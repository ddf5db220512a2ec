/**
 * The per-channel receiver (src/acars.c:311-439): the shift register that `putbit`
 * fills one demodulated bit at a time, and the state machine of `decodeAcars` that
 * finds the two SYN characters and the SOH, collects the text up to ETX or ETB,
 * takes the two CRC bytes and queues the finished block for the worker.
 *
 * `Next` states the decoder on values; the `Channel` class does it in place, on the
 * channel's fields and the block buffer, and its methods are proved to do what
 * `Next` says.
 */
module Receiver {
  import opened Wrappers
  import opened Acars
  import opened Crc
  import opened Blocks

  /** The decoder states (`Acarsstate`). */
  datatype Phase = WSYN | SYN2 | SOH1 | TXT | CRC1 | CRC2 | END

  /** `(unsigned char)~SYN`: a SYN received with every bit inverted. */
  const InvSYN: bv8 := 0xE9

  /** A block as it is handed to the worker: text, the two CRC bytes, time and level. */
  datatype Frame = Frame(text: seq<bv8>, crc0: bv8, crc1: bv8, t: int, lvl: int)

  /**
   * The decoder's state on values: the phase, the shift register `outbits`, the bit
   * count `nbits`, `MskS`, and the block being received (its text so far, `crc[0]`,
   * time and level).
   */
  datatype Rx = Rx(phase: Phase, outbits: bv8, nbits: int, mskS: bv32, text: seq<bv8>, crc0: bv8, t: int, lvl: int)

  /** What one decoder step does: the next state, and the block it queues, if any. */
  datatype Stepped = Stepped(rx: Rx, out: Option<Frame>)

  /**
   * `decodeAcars` (src/acars.c:337-439) on the byte r, with `now` the clock at SOH and
   * `lvl` the level measured at the second CRC byte.  Each step waits for 1 or 8 more
   * bits; a byte that breaks the SYN SYN SOH sequence sends it back to the bit-by-bit
   * hunt; a SYN received inverted flips the polarity bit of `MskS`; a block is queued
   * exactly after the second CRC byte or at a DLE once 20 text bytes are in, always
   * leaving the decoder in END; and a text never outgrows the 241-byte buffer.
   */
  function Next(rx: Rx, r: bv8, now: int, lvl: int): (s: Stepped)
    ensures s.rx.nbits == 1 || s.rx.nbits == 8
    ensures s.rx.outbits == rx.outbits
    ensures s.rx.mskS == if (rx.phase == WSYN || rx.phase == SYN2) && r == InvSYN then rx.mskS ^ 2 else rx.mskS
    ensures (rx.phase == WSYN || rx.phase == SYN2) && r != SYN && r != InvSYN ==> s.rx.phase == WSYN && s.rx.nbits == 1
    ensures rx.phase == SOH1 && r != SOH ==> s.rx.phase == WSYN && s.rx.nbits == 1
    ensures rx.phase == END ==> s.rx.phase == WSYN && s.rx.nbits == 8
    ensures s.out.Some? <==> rx.phase == CRC2 || (rx.phase == TXT && r == DLE && |rx.text| >= 20)
    ensures s.out.Some? ==> s.rx.phase == END
    ensures rx.phase == TXT && |rx.text| <= 240 ==>
      && (s.rx.phase == TXT ==> |s.rx.text| <= 240)
      && (s.rx.phase == CRC1 ==> |s.rx.text| <= 241)
      && (s.out.Some? ==> |s.out.value.text| <= 238)
  {
    match rx.phase
    case WSYN =>
      if r == SYN then Stepped(rx.(phase := SYN2, nbits := 8), None)
      else if r == InvSYN then Stepped(rx.(mskS := rx.mskS ^ 2, phase := SYN2, nbits := 8), None)
      else Stepped(rx.(nbits := 1), None)
    case SYN2 =>
      if r == SYN then Stepped(rx.(phase := SOH1, nbits := 8), None)
      else if r == InvSYN then Stepped(rx.(mskS := rx.mskS ^ 2, nbits := 8), None)
      else Stepped(rx.(phase := WSYN, nbits := 1), None)
    case SOH1 =>
      if r == SOH then Stepped(rx.(t := now, phase := TXT, text := [], nbits := 8), None)
      else Stepped(rx.(phase := WSYN, nbits := 1), None)
    case TXT =>
      var text := rx.text + [r];
      if r == ETX || r == ETB then Stepped(rx.(text := text, phase := CRC1, nbits := 8), None)
      else if |text| > 20 && r == DLE then
        var n := |text| - 3;
        Stepped(rx.(text := [], phase := END, nbits := 8), Some(Frame(text[..n], text[n], text[n + 1], rx.t, rx.lvl)))
      else if |text| > 240 then Stepped(rx.(text := [], phase := WSYN, nbits := 1), None)
      else Stepped(rx.(text := text, nbits := 8), None)
    case CRC1 =>
      Stepped(rx.(crc0 := r, phase := CRC2, nbits := 8), None)
    case CRC2 =>
      Stepped(rx.(text := [], phase := END, nbits := 8), Some(Frame(rx.text, rx.crc0, r, rx.t, lvl)))
    case END =>
      Stepped(rx.(phase := WSYN, nbits := 8), None)
  }

  /** The shift register after one more bit: it enters at 0x80, the oldest bit leaves at 0x01. */
  function ShiftIn(outbits: bv8, bit: bool): bv8
  {
    (outbits >> 1) | (if bit then 0x80 else 0)
  }

  /** The register after one bit, waiting for one bit fewer. */
  function Shift(rx: Rx, bit: bool): Rx
  {
    rx.(outbits := ShiftIn(rx.outbits, bit), nbits := rx.nbits - 1)
  }

  /** `putbit` (src/acars.c:327-335) on values: shift, count down, decode when the count runs out. */
  function BitStep(rx: Rx, bit: bool, now: int, lvl: int): Stepped
  {
    var shifted := Shift(rx, bit);
    if shifted.nbits <= 0 then Next(shifted, shifted.outbits, now, lvl) else Stepped(shifted, None)
  }

  /** The last bit of a byte: shifted in, then the byte is decoded. */
  lemma BitDecodes(rx: Rx, bit: bool, now: int, lvl: int)
    requires rx.nbits <= 1
    ensures BitStep(rx, bit, now, lvl) == Next(Shift(rx, bit), Shift(rx, bit).outbits, now, lvl)
  {
  }

  /** Any other bit is only shifted in. */
  lemma BitShifts(rx: Rx, bit: bool, now: int, lvl: int)
    requires rx.nbits > 1
    ensures BitStep(rx, bit, now, lvl) == Stepped(Shift(rx, bit), None)
  {
  }

  /** A byte arriving whole in the shift register, the bit count run out, then decoded. */
  function ByteStep(rx: Rx, b: bv8, now: int, lvl: int): Stepped
  {
    Next(rx.(outbits := b, nbits := 0), b, now, lvl)
  }

  /** The state and queued blocks after a run of steps. */
  datatype Run = Run(rx: Rx, out: seq<Frame>)

  /** The block a step queues, as a sequence of zero or one blocks. */
  function Queued(out: Option<Frame>): seq<Frame>
  {
    if out.Some? then [out.value] else []
  }

  /** The decoder fed whole bytes, one after another. */
  function RunBytes(rx: Rx, bytes: seq<bv8>, now: int, lvl: int): Run
    decreases |bytes|
  {
    if bytes == [] then Run(rx, [])
    else
      var s := ByteStep(rx, bytes[0], now, lvl);
      var rest := RunBytes(s.rx, bytes[1..], now, lvl);
      Run(rest.rx, Queued(s.out) + rest.out)
  }

  /** The receiver fed single bits, one after another. */
  function RunBits(rx: Rx, bits: seq<bool>, now: int, lvl: int): Run
    decreases |bits|
  {
    if bits == [] then Run(rx, [])
    else
      var s := BitStep(rx, bits[0], now, lvl);
      var rest := RunBits(s.rx, bits[1..], now, lvl);
      Run(rest.rx, Queued(s.out) + rest.out)
  }

  /** The bits of a byte sequence, byte after byte. */
  function Serialize(bytes: seq<bv8>): (bits: seq<bool>)
    ensures |bits| == 8 * |bytes|
  {
    if bytes == [] then [] else Bits(bytes[0]) + Serialize(bytes[1..])
  }

  /** The shift register after a run of bits, the first bit entering first. */
  function Shifted(outbits: bv8, bits: seq<bool>): bv8
    decreases |bits|
  {
    if bits == [] then outbits else Shifted(ShiftIn(outbits, bits[0]), bits[1..])
  }

  /** Every step of a byte run leaves the decoder waiting for 8 more bits. */
  predicate Aligned(rx: Rx, bytes: seq<bv8>, now: int, lvl: int)
    decreases |bytes|
  {
    bytes == [] ||
      var s := ByteStep(rx, bytes[0], now, lvl);
      s.rx.nbits == 8 && Aligned(s.rx, bytes[1..], now, lvl)
  }

  /**
   * A text the decoder takes as one block: it ends with ETX or ETB, holds neither
   * before, has no DLE from its 21st byte on, and is at most 241 bytes long.
   */
  predicate FrameText(text: seq<bv8>)
  {
    && 1 <= |text| <= TxtCapacity
    && (text[|text| - 1] == ETX || text[|text| - 1] == ETB)
    && forall i :: 0 <= i < |text| - 1 ==> text[i] != ETX && text[i] != ETB && (i >= 20 ==> text[i] != DLE)
  }

  /** The bytes sent for a block: two SYN, SOH, the text, the two CRC bytes. */
  function FrameBytes(text: seq<bv8>, c0: bv8, c1: bv8): seq<bv8>
  {
    [SYN, SYN, SOH] + text + [c0, c1]
  }

  /** A byte run split in two: the states and queued blocks compose. */
  lemma {:induction false} RunAppend(rx: Rx, a: seq<bv8>, b: seq<bv8>, now: int, lvl: int)
    ensures var ra := RunBytes(rx, a, now, lvl);
      var rb := RunBytes(ra.rx, b, now, lvl);
      RunBytes(rx, a + b, now, lvl) == Run(rb.rx, ra.out + rb.out)
    decreases |a|
  {
    if a == [] {
      assert a + b == b;
    } else {
      var s := ByteStep(rx, a[0], now, lvl);
      assert (a + b)[0] == a[0] && (a + b)[1..] == a[1..] + b;
      RunAppend(s.rx, a[1..], b, now, lvl);
      var ra := RunBytes(s.rx, a[1..], now, lvl);
      var rb := RunBytes(ra.rx, b, now, lvl);
      assert Queued(s.out) + (ra.out + rb.out) == (Queued(s.out) + ra.out) + rb.out;
    }
  }

  /** A byte run split in two is aligned exactly when both parts are. */
  lemma {:induction false} AlignedAppend(rx: Rx, a: seq<bv8>, b: seq<bv8>, now: int, lvl: int)
    ensures Aligned(rx, a + b, now, lvl) <==>
      Aligned(rx, a, now, lvl) && Aligned(RunBytes(rx, a, now, lvl).rx, b, now, lvl)
    decreases |a|
  {
    if a == [] {
      assert a + b == b;
    } else {
      var s := ByteStep(rx, a[0], now, lvl);
      assert (a + b)[0] == a[0] && (a + b)[1..] == a[1..] + b;
      AlignedAppend(s.rx, a[1..], b, now, lvl);
    }
  }

  /** One text byte that neither ends the text nor overflows it is stored at the end. */
  lemma TextStep(rx: Rx, r: bv8, now: int, lvl: int)
    requires rx.phase == TXT && |rx.text| < 240
    requires r != ETX && r != ETB && (|rx.text| >= 20 ==> r != DLE)
    ensures ByteStep(rx, r, now, lvl) == Stepped(rx.(outbits := r, text := rx.text + [r], nbits := 8), None)
  {
  }

  /**
   * Text bytes with no terminator, no DLE from the 21st byte on and no overflow are
   * stored one after another, and nothing is queued.
   */
  lemma {:induction false} TextRun(rx: Rx, s: seq<bv8>, now: int, lvl: int)
    requires rx.phase == TXT && |rx.text| + |s| <= 240
    requires forall i :: 0 <= i < |s| ==> s[i] != ETX && s[i] != ETB && (|rx.text| + i >= 20 ==> s[i] != DLE)
    ensures var r := RunBytes(rx, s, now, lvl);
      && r.out == [] && r.rx.phase == TXT && r.rx.text == rx.text + s
      && r.rx.t == rx.t && r.rx.mskS == rx.mskS
      && Aligned(rx, s, now, lvl)
    decreases |s|
  {
    if s != [] {
      TextStep(rx, s[0], now, lvl);
      var next := rx.(outbits := s[0], text := rx.text + [s[0]], nbits := 8);
      assert forall i :: 0 <= i < |s[1..]| ==> s[1..][i] == s[i + 1];
      TextRun(next, s[1..], now, lvl);
      assert rx.text + [s[0]] + s[1..] == rx.text + s;
    }
  }

  /** The three bytes before the text lead from WSYN to TXT with an empty text and the time of SOH. */
  lemma HeadRun(rx: Rx, now: int, lvl: int)
    requires rx.phase == WSYN
    ensures var r := RunBytes(rx, [SYN, SYN, SOH], now, lvl);
      && r.out == [] && r.rx.phase == TXT && r.rx.text == [] && r.rx.t == now && r.rx.mskS == rx.mskS
      && Aligned(rx, [SYN, SYN, SOH], now, lvl)
  {
    var s1 := ByteStep(rx, SYN, now, lvl);
    assert s1 == Stepped(rx.(outbits := SYN, phase := SYN2, nbits := 8), None);
    var s2 := ByteStep(s1.rx, SYN, now, lvl);
    assert s2 == Stepped(s1.rx.(phase := SOH1), None);
    var s3 := ByteStep(s2.rx, SOH, now, lvl);
    assert s3 == Stepped(s2.rx.(outbits := SOH, t := now, phase := TXT, text := []), None);
    assert [SYN, SYN, SOH][1..] == [SYN, SOH] && [SYN, SOH][1..] == [SOH] && [SOH][1..] == [];
    assert RunBytes(s2.rx, [SOH], now, lvl) == Run(s3.rx, []) && Aligned(s2.rx, [SOH], now, lvl);
    assert RunBytes(s1.rx, [SYN, SOH], now, lvl) == Run(s3.rx, []) && Aligned(s1.rx, [SYN, SOH], now, lvl);
  }

  /** The terminator and the two CRC bytes after a text: the block is queued and the decoder is in END. */
  lemma TailRun(rx: Rx, text: seq<bv8>, c0: bv8, c1: bv8, now: int, lvl: int)
    requires FrameText(text) && rx.phase == TXT && rx.text == text[..|text| - 1]
    ensures var r := RunBytes(rx, [text[|text| - 1], c0, c1], now, lvl);
      && r.out == [Frame(text, c0, c1, rx.t, lvl)] && r.rx.phase == END
      && r.rx.mskS == rx.mskS
      && Aligned(rx, [text[|text| - 1], c0, c1], now, lvl)
  {
    var e := text[|text| - 1];
    assert text[..|text| - 1] + [e] == text;
    var s1 := ByteStep(rx, e, now, lvl);
    assert s1 == Stepped(rx.(outbits := e, text := text, phase := CRC1, nbits := 8), None);
    var s2 := ByteStep(s1.rx, c0, now, lvl);
    assert s2 == Stepped(s1.rx.(outbits := c0, crc0 := c0, phase := CRC2), None);
    var s3 := ByteStep(s2.rx, c1, now, lvl);
    var f := Frame(text, c0, c1, rx.t, lvl);
    assert s3 == Stepped(s2.rx.(outbits := c1, text := [], phase := END), Some(f));
    assert [e, c0, c1][1..] == [c0, c1] && [c0, c1][1..] == [c1] && [c1][1..] == [];
    assert RunBytes(s2.rx, [c1], now, lvl) == Run(s3.rx, [f]) && Aligned(s2.rx, [c1], now, lvl);
    assert RunBytes(s1.rx, [c0, c1], now, lvl) == Run(s3.rx, [f]) && Aligned(s1.rx, [c0, c1], now, lvl);
  }

  /**
   * A block sent as two SYN, SOH, its text and two CRC bytes, received byte by byte
   * from the hunt for SYN, is queued once, with the time of SOH and the level at the
   * last CRC byte; the decoder ends in END, and never leaves the byte alignment.
   */
  lemma FrameReceived(rx: Rx, text: seq<bv8>, c0: bv8, c1: bv8, now: int, lvl: int)
    requires rx.phase == WSYN && FrameText(text)
    ensures var r := RunBytes(rx, FrameBytes(text, c0, c1), now, lvl);
      && r.out == [Frame(text, c0, c1, now, lvl)] && r.rx.phase == END && r.rx.mskS == rx.mskS
      && Aligned(rx, FrameBytes(text, c0, c1), now, lvl)
  {
    var head: seq<bv8> := [SYN, SYN, SOH];
    var body := text[..|text| - 1];
    var tail := [text[|text| - 1], c0, c1];
    assert FrameBytes(text, c0, c1) == head + (body + tail);
    HeadRun(rx, now, lvl);
    var r1 := RunBytes(rx, head, now, lvl);
    TextRun(r1.rx, body, now, lvl);
    var r2 := RunBytes(r1.rx, body, now, lvl);
    TailRun(r2.rx, text, c0, c1, now, lvl);
    RunAppend(r1.rx, body, tail, now, lvl);
    RunAppend(rx, head, body + tail, now, lvl);
    AlignedAppend(r1.rx, body, tail, now, lvl);
    AlignedAppend(rx, head, body + tail, now, lvl);
  }

  /** Eight shifts bring in a whole byte, whatever the register held before. */
  lemma PackBits(o: bv8, b: bv8)
    ensures
      var x1 := ShiftIn(o, b & 0x01 != 0);
      var x2 := ShiftIn(x1, b & 0x02 != 0);
      var x3 := ShiftIn(x2, b & 0x04 != 0);
      var x4 := ShiftIn(x3, b & 0x08 != 0);
      var x5 := ShiftIn(x4, b & 0x10 != 0);
      var x6 := ShiftIn(x5, b & 0x20 != 0);
      var x7 := ShiftIn(x6, b & 0x40 != 0);
      ShiftIn(x7, b & 0x80 != 0) == b
  {
  }

  /** Eight bits shifted in one after the other. */
  lemma ShiftedEight(o: bv8, bits: seq<bool>)
    requires |bits| == 8
    ensures
      var o1 := ShiftIn(o, bits[0]);
      var o2 := ShiftIn(o1, bits[1]);
      var o3 := ShiftIn(o2, bits[2]);
      var o4 := ShiftIn(o3, bits[3]);
      var o5 := ShiftIn(o4, bits[4]);
      var o6 := ShiftIn(o5, bits[5]);
      var o7 := ShiftIn(o6, bits[6]);
      Shifted(o, bits) == ShiftIn(o7, bits[7])
  {
    var o1 := ShiftIn(o, bits[0]);
    var o2 := ShiftIn(o1, bits[1]);
    var o3 := ShiftIn(o2, bits[2]);
    var o4 := ShiftIn(o3, bits[3]);
    var o5 := ShiftIn(o4, bits[4]);
    var o6 := ShiftIn(o5, bits[5]);
    var o7 := ShiftIn(o6, bits[6]);
    var o8 := ShiftIn(o7, bits[7]);
    assert Shifted(o7, bits[7..]) == o8 by {
      assert bits[7..][1..] == [];
    }
    assert Shifted(o6, bits[6..]) == o8 by {
      assert bits[6..][1..] == bits[7..];
    }
    assert Shifted(o5, bits[5..]) == o8 by {
      assert bits[5..][1..] == bits[6..];
    }
    assert Shifted(o4, bits[4..]) == o8 by {
      assert bits[4..][1..] == bits[5..];
    }
    assert Shifted(o3, bits[3..]) == o8 by {
      assert bits[3..][1..] == bits[4..];
    }
    assert Shifted(o2, bits[2..]) == o8 by {
      assert bits[2..][1..] == bits[3..];
    }
    assert Shifted(o1, bits[1..]) == o8 by {
      assert bits[1..][1..] == bits[2..];
    }
  }

  /** The bits of a byte, least significant first, shifted in, give the byte back. */
  lemma EightBits(o: bv8, b: bv8)
    ensures Shifted(o, Bits(b)) == b
  {
    var bits := Bits(b);
    ShiftedEight(o, bits);
    assert bits[0] == (b & 0x01 != 0) && bits[1] == (b & 0x02 != 0);
    assert bits[2] == (b & 0x04 != 0) && bits[3] == (b & 0x08 != 0);
    assert bits[4] == (b & 0x10 != 0) && bits[5] == (b & 0x20 != 0);
    assert bits[6] == (b & 0x40 != 0) && bits[7] == (b & 0x80 != 0);
    PackBits(o, b);
  }

  /** A bit appended to a run enters the register last. */
  lemma {:induction false} ShiftedLast(o: bv8, bits: seq<bool>, x: bool)
    ensures Shifted(o, bits + [x]) == ShiftIn(Shifted(o, bits), x)
    decreases |bits|
  {
    if bits == [] {
      assert [] + [x] == [x] && [x][1..] == [];
    } else {
      assert (bits + [x])[0] == bits[0] && (bits + [x])[1..] == bits[1..] + [x];
      ShiftedLast(ShiftIn(o, bits[0]), bits[1..], x);
    }
  }

  /**
   * Fewer bits than the decoder waits for are only shifted in: the count goes down,
   * nothing else changes and nothing is queued.
   */
  lemma {:induction false} QuietBits(rx: Rx, bits: seq<bool>, now: int, lvl: int)
    requires |bits| < rx.nbits
    ensures RunBits(rx, bits, now, lvl) ==
      Run(rx.(outbits := Shifted(rx.outbits, bits), nbits := rx.nbits - |bits|), [])
    decreases |bits|
  {
    if bits != [] {
      var s := BitStep(rx, bits[0], now, lvl);
      assert s == Stepped(rx.(outbits := ShiftIn(rx.outbits, bits[0]), nbits := rx.nbits - 1), None);
      QuietBits(s.rx, bits[1..], now, lvl);
    }
  }

  /** A bit run split in two: the states and queued blocks compose. */
  lemma {:induction false} RunBitsAppend(rx: Rx, a: seq<bool>, b: seq<bool>, now: int, lvl: int)
    ensures var ra := RunBits(rx, a, now, lvl);
      var rb := RunBits(ra.rx, b, now, lvl);
      RunBits(rx, a + b, now, lvl) == Run(rb.rx, ra.out + rb.out)
    decreases |a|
  {
    if a == [] {
      assert a + b == b;
    } else {
      var s := BitStep(rx, a[0], now, lvl);
      assert (a + b)[0] == a[0] && (a + b)[1..] == a[1..] + b;
      RunBitsAppend(s.rx, a[1..], b, now, lvl);
      var ra := RunBits(s.rx, a[1..], now, lvl);
      var rb := RunBits(ra.rx, b, now, lvl);
      assert Queued(s.out) + (ra.out + rb.out) == (Queued(s.out) + ra.out) + rb.out;
    }
  }

  /** With the decoder waiting for 8 bits, the 8 bits of a byte decode that byte, once. */
  lemma ByteInBits(rx: Rx, b: bv8, now: int, lvl: int)
    requires rx.nbits == 8
    ensures var s := ByteStep(rx, b, now, lvl);
      RunBits(rx, Bits(b), now, lvl) == Run(s.rx, Queued(s.out))
  {
    var bits := Bits(b);
    var first := bits[..7];
    assert bits == first + [bits[7]];
    QuietBits(rx, first, now, lvl);
    var rx7 := rx.(outbits := Shifted(rx.outbits, first), nbits := 1);
    RunBitsAppend(rx, first, [bits[7]], now, lvl);
    ShiftedLast(rx.outbits, first, bits[7]);
    EightBits(rx.outbits, b);
    var s := BitStep(rx7, bits[7], now, lvl);
    assert s == ByteStep(rx, b, now, lvl);
    assert [bits[7]][1..] == [];
    assert RunBits(rx7, [bits[7]], now, lvl) == Run(s.rx, Queued(s.out) + []);
  }

  /**
   * Bytes sent bit by bit, least significant bit first, reach the decoder as those
   * bytes as long as it stays byte-aligned.
   */
  lemma {:induction false} BitsAsBytes(rx: Rx, bytes: seq<bv8>, now: int, lvl: int)
    requires rx.nbits == 8 && Aligned(rx, bytes, now, lvl)
    ensures RunBits(rx, Serialize(bytes), now, lvl) == RunBytes(rx, bytes, now, lvl)
    decreases |bytes|
  {
    if bytes != [] {
      var s := ByteStep(rx, bytes[0], now, lvl);
      ByteInBits(rx, bytes[0], now, lvl);
      RunBitsAppend(rx, Bits(bytes[0]), Serialize(bytes[1..]), now, lvl);
      BitsAsBytes(s.rx, bytes[1..], now, lvl);
    }
  }

  /**
   * A block sent as a bit stream, starting while the receiver hunts for SYN with a
   * whole byte to come, is queued once, exactly as sent.
   */
  lemma FrameReceivedBits(rx: Rx, text: seq<bv8>, c0: bv8, c1: bv8, now: int, lvl: int)
    requires rx.phase == WSYN && rx.nbits == 8 && FrameText(text)
    ensures var r := RunBits(rx, Serialize(FrameBytes(text, c0, c1)), now, lvl);
      r.out == [Frame(text, c0, c1, now, lvl)] && r.rx.phase == END
  {
    FrameReceived(rx, text, c0, c1, now, lvl);
    BitsAsBytes(rx, FrameBytes(text, c0, c1), now, lvl);
  }
}
