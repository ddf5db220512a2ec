/**
 * The worker's processing of one dequeued block (src/acars.c:152-298), in place on
 * the block's text buffer as the source does it, each step proved equal to the
 * specification of the Validation and Messages modules.
 */
module Worker {
  import opened Wrappers
  import opened Acars
  import opened Crc
  import opened Validation
  import opened Messages
  import opened Blocks
  import opened RepairProofs

  /** A block whose length fits its buffer. */
  predicate Sized(blk: MsgBlk)
    reads blk
  {
    0 <= blk.len <= blk.txt.Length
  }

  /** The in-place forcing of byte 12 (src/acars.c:159-160). */
  method ForceByte12(blk: MsgBlk)
    requires Sized(blk) && blk.len >= 13
    modifies blk.txt
    ensures blk.txt[..] == old(blk.txt[..])[12 := ForceBlockStart(old(blk.txt[12]))]
    ensures blk.txt[..blk.len] == ForceStart(old(blk.txt[..blk.len]))
  {
    blk.txt[12] := blk.txt[12] & (ETX | STX);
    blk.txt[12] := blk.txt[12] | (ETX & STX);
  }

  /** The first parity pass (src/acars.c:163-169): the number of even-parity bytes. */
  method CountParityErrors(blk: MsgBlk) returns (pn: nat)
    requires Sized(blk)
    ensures pn == EvenCount(blk.txt[..blk.len])
  {
    pn := 0;
    var i := 0;
    while i < blk.len
      invariant 0 <= i <= blk.len
      invariant pn == EvenCount(blk.txt[..i])
    {
      assert blk.txt[..i + 1][..i] == blk.txt[..i];
      if !OddParity(blk.txt[i]) {
        pn := pn + 1;
      }
      i := i + 1;
    }
  }

  /** The CRC pass (src/acars.c:177-183): the text, then crc[0], then crc[1]. */
  method ComputeResidue(blk: MsgBlk) returns (crc: Register)
    requires Sized(blk)
    ensures crc == BlockResidue(blk.txt[..blk.len], blk.crc0, blk.crc1)
  {
    crc := Clear;
    var i := 0;
    while i < blk.len
      invariant 0 <= i <= blk.len
      invariant crc == Residue(Clear, blk.txt[..i])
    {
      assert blk.txt[..i + 1][..i] == blk.txt[..i];
      crc := UpdateCrc(crc, blk.txt[i]);
      i := i + 1;
    }
    ghost var s := blk.txt[..blk.len];
    ghost var s1, s2 := s + [blk.crc0], s + [blk.crc0, blk.crc1];
    assert s1[..|s1| - 1] == s && s2[..|s2| - 1] == s1;
    crc := UpdateCrc(crc, blk.crc0);
    assert crc == Residue(Clear, s1);
    crc := UpdateCrc(crc, blk.crc1);
    assert crc == Residue(Clear, s2);
  }

  /**
   * The single-bit search (src/acars.c:190-196): the first index of `oneerr` holding
   * the residue, if any.
   */
  method FindOneErr(t: Tables, crc: Register) returns (r: Option<nat>)
    requires t.WellSized()
    ensures r == FirstMatch(t.oneerr, crc)
  {
    var i := 0;
    while i < OneErrSize
      invariant 0 <= i <= OneErrSize
      invariant forall j :: 0 <= j < i ==> t.oneerr[j] != crc
    {
      if t.oneerr[i] == crc {
        return Some(i);
      }
      i := i + 1;
    }
    return None;
  }

  /** `1<<(i%8)` for a bit number below 8 is the bit's mask. */
  lemma OneShifted(k: nat)
    requires k < 8
    ensures (1 as bv8) << k == BitMasks[k]
  {
    if k == 0 {
    } else if k == 1 {
    } else if k == 2 {
    } else if k == 3 {
    } else if k == 4 {
    } else if k == 5 {
    } else if k == 6 {
    } else {
    }
  }

  /** Entry n = 142 * p + i of the two-bit table lies in pair p at distance i. */
  lemma SpanIndex(p: nat, i: nat)
    requires i < PairSpan
    ensures (p * PairSpan + i) / PairSpan == p && (p * PairSpan + i) % PairSpan == i
  {
  }

  /** The pair index of the loop variables (k, l) is in range and has mask `u|v`. */
  lemma LoopPair(k: nat, l: nat)
    requires l < k < 8
    ensures Tri(k) + l < Tri(k + 1) <= PairCount
    ensures PairMask(Tri(k) + l) == BitMasks[l] | BitMasks[k]
  {
    TriGrows(k + 1, 8);
    assert Tri(8) == 28 by {
      assert Tri(2) == 1 && Tri(3) == 3 && Tri(4) == 6 && Tri(5) == 10 && Tri(6) == 15 && Tri(7) == 21;
    }
    PairIndex(k, l);
    assert BitMasks[k] | BitMasks[l] == BitMasks[l] | BitMasks[k];
  }

  /** No entry of `table` from lo up to hi holds x. */
  predicate NoMatch(table: seq<Register>, x: Register, lo: nat, hi: nat)
    requires hi <= |table|
  {
    forall j :: lo <= j < hi ==> table[j] != x
  }

  /** Two adjacent stretches without a match make one. */
  lemma NoMatchJoin(table: seq<Register>, x: Register, lo: nat, mid: nat, hi: nat)
    requires lo <= mid <= hi <= |table|
    requires NoMatch(table, x, lo, mid) && NoMatch(table, x, mid, hi)
    ensures NoMatch(table, x, lo, hi)
  {
  }

  /** A match after a stretch without one from the start is the first match. */
  lemma FirstMatchAt(table: seq<Register>, x: Register, n: nat)
    requires n < |table| && table[n] == x && NoMatch(table, x, 0, n)
    ensures FirstMatch(table, x) == Some(n)
  {
  }

  /** No match anywhere: the search fails. */
  lemma FirstMatchNone(table: seq<Register>, x: Register)
    requires NoMatch(table, x, 0, |table|)
    ensures FirstMatch(table, x) == None
  {
  }

  /** A match at distance i of pair p, after none before, is the first match, of that pair and distance. */
  lemma SpanFound(table: seq<Register>, x: Register, p: nat, i: nat)
    requires i < PairSpan && (p + 1) * PairSpan <= |table|
    requires NoMatch(table, x, 0, p * PairSpan) && NoMatch(table, x, p * PairSpan, p * PairSpan + i)
    requires table[p * PairSpan + i] == x
    ensures FirstMatch(table, x) == Some(p * PairSpan + i)
    ensures (p * PairSpan + i) / PairSpan == p && (p * PairSpan + i) % PairSpan == i
  {
    var n := p * PairSpan + i;
    NoMatchJoin(table, x, 0, p * PairSpan, n);
    FirstMatchAt(table, x, n);
    SpanIndex(p, i);
  }

  /** Entry (Tri(k) + l) * 142 + i of the two-bit table is the pair (k, l), of mask `u|v`. */
  lemma EntryMask(k: nat, l: nat, i: nat, n: nat, v: bv8)
    requires l < k < 8 && i < PairSpan && n == (Tri(k) + l) * PairSpan + i && v == BitMasks[k]
    ensures n / PairSpan < PairCount && n % PairSpan == i
    ensures PairMask(n / PairSpan) == BitMasks[l] | v
  {
    LoopPair(k, l);
    SpanIndex(Tri(k) + l, i);
  }

  /**
   * The innermost loop of the two-bit search: the entries base to base + 141, one per
   * distance; the distance of the first holding the residue, if any.
   */
  method SearchSpan(t: Tables, crc: Register, base: nat) returns (r: Option<nat>)
    requires t.WellSized() && base + PairSpan <= |t.twoerr|
    ensures r.Some? ==> r.value < PairSpan && t.twoerr[base + r.value] == crc
    ensures r.Some? ==> NoMatch(t.twoerr, crc, base, base + r.value)
    ensures r.None? ==> NoMatch(t.twoerr, crc, base, base + PairSpan)
  {
    var i := 0;
    while i < PairSpan
      invariant 0 <= i <= PairSpan
      invariant NoMatch(t.twoerr, crc, base, base + i)
    {
      if t.twoerr[base + i] == crc {
        return Some(i);
      }
      i := i + 1;
    }
    return None;
  }

  /**
   * One round of the two-bit search's outer loop (src/acars.c:204-223): the pairs
   * whose higher bit is k, lower bit l from 0 up, each over its span of distances.
   * The source keeps the lower bit's mask in `u`, shifted left once per pair; the
   * model reads the same mask, `BitMasks[l]`, directly.
   */
  method SearchHigh(t: Tables, crc: Register, k: nat, v: bv8) returns (r: Option<nat>, sft: nat, msk: bv8)
    requires t.WellSized() && 1 <= k < 8 && v == BitMasks[k]
    requires Tri(k) <= PairCount && NoMatch(t.twoerr, crc, 0, Tri(k) * PairSpan)
    ensures Tri(k + 1) <= PairCount
    ensures r.Some? ==> r == FirstMatch(t.twoerr, crc)
    ensures r.Some? ==>
      && r.value / PairSpan < PairCount
      && sft == r.value % PairSpan
      && msk == PairMask(r.value / PairSpan)
    ensures r.None? ==> NoMatch(t.twoerr, crc, 0, Tri(k + 1) * PairSpan)
  {
    sft, msk := 0, 0;
    LoopPair(k, 0);
    var l := 0;
    while l < k
      invariant 0 <= l <= k
      invariant NoMatch(t.twoerr, crc, 0, (Tri(k) + l) * PairSpan)
    {
      LoopPair(k, l);
      var p := Tri(k) + l;
      var base := p * PairSpan;
      var found := SearchSpan(t, crc, base);
      if found.Some? {
        var n := base + found.value;
        SpanFound(t.twoerr, crc, p, found.value);
        EntryMask(k, l, found.value, n, v);
        return Some(n), found.value, BitMasks[l] | v;
      }
      NoMatchJoin(t.twoerr, crc, 0, base, base + PairSpan);
      l := l + 1;
    }
    assert Tri(k + 1) == Tri(k) + k;
    return None, sft, msk;
  }

  /**
   * The two-bit search (src/acars.c:198-224): pairs of bits (l, k), l < k, in the
   * loops' order, each tried at distances 0 to 141; on the first match the entry,
   * the distance i and the mask `u|v` that `fixerr` receives.  The source tries
   * distance 0 before its inner loop over 1..141; one loop over 0..141 visits the
   * same entries in the same order.
   */
  method FindTwoErr(t: Tables, crc: Register) returns (r: Option<nat>, sft: nat, msk: bv8)
    requires t.WellSized()
    ensures r == FirstMatch(t.twoerr, crc)
    ensures r.Some? ==>
      && r.value / PairSpan < PairCount
      && sft == r.value % PairSpan
      && msk == PairMask(r.value / PairSpan)
  {
    var k := 1;
    var v: bv8 := 2;
    while k < 8
      invariant 1 <= k <= 8 && (k < 8 ==> v == BitMasks[k])
      invariant Tri(k) <= PairCount
      invariant NoMatch(t.twoerr, crc, 0, Tri(k) * PairSpan)
    {
      r, sft, msk := SearchHigh(t, crc, k, v);
      if r.Some? {
        return;
      }
      if k < 7 {
        MaskStep(k);
      }
      k := k + 1;
      v := v << 1;
    }
    assert Tri(8) == 28 by {
      assert Tri(2) == 1 && Tri(3) == 3 && Tri(4) == 6 && Tri(5) == 10 && Tri(6) == 15 && Tri(7) == 21;
    }
    FirstMatchNone(t.twoerr, crc);
    return None, 0, 0;
  }

  /**
   * `fixerr` (src/acars.c:83-90), with the bounds check the source lacks: a distance
   * of 2 or less leaves the text alone, one that points before the text reports
   * failure, any other flips the bits `msk` of byte `len-1-(sft-2)`.
   */
  method FixErr(blk: MsgBlk, sft: nat, msk: bv8) returns (ok: bool)
    requires Sized(blk)
    modifies blk.txt
    ensures var f := Fix(old(blk.txt[..blk.len]), sft, msk);
      && ok == f.Success?
      && (ok ==> blk.txt[..blk.len] == f.value)
    ensures !ok ==> blk.txt[..] == old(blk.txt[..])
    ensures blk.txt[blk.len..] == old(blk.txt[blk.len..])
  {
    if sft <= 2 {
      return true;
    }
    if FixIndex(blk.len, sft) < 0 {
      return false;
    }
    var i := FixIndex(blk.len, sft);
    blk.txt[i] := blk.txt[i] ^ msk;
    return true;
  }

  /**
   * The second parity pass (src/acars.c:237-244): the even-parity bytes are counted
   * and every byte loses its parity bit.
   */
  method StripParity(blk: MsgBlk) returns (pn: nat)
    requires Sized(blk)
    modifies blk.txt
    ensures pn == EvenCount(old(blk.txt[..blk.len]))
    ensures blk.txt[..blk.len] == Stripped(old(blk.txt[..blk.len]))
    ensures blk.txt[blk.len..] == old(blk.txt[blk.len..])
  {
    ghost var a0 := blk.txt[..];
    pn := 0;
    var i := 0;
    while i < blk.len
      invariant 0 <= i <= blk.len
      invariant pn == EvenCount(a0[..i])
      invariant blk.txt[..] == Stripped(a0[..i]) + a0[i..]
    {
      StripStep(a0, i);
      if !OddParity(blk.txt[i]) {
        pn := pn + 1;
      }
      blk.txt[i] := blk.txt[i] & 0x7f;
      i := i + 1;
    }
    StripEnd(a0, blk.txt[..], blk.len);
  }

  /** One more byte of the pass: its parity is counted and its parity bit cleared. */
  lemma StripStep(a0: seq<bv8>, i: nat)
    requires i < |a0|
    ensures (Stripped(a0[..i]) + a0[i..])[i] == a0[i]
    ensures EvenCount(a0[..i + 1]) == EvenCount(a0[..i]) + (if OddParity(a0[i]) then 0 else 1)
    ensures (Stripped(a0[..i]) + a0[i..])[i := a0[i] & 0x7f] == Stripped(a0[..i + 1]) + a0[i + 1..]
  {
    assert a0[..i + 1][..i] == a0[..i];
  }

  /** At the end of the pass the text is stripped and what follows it is untouched. */
  lemma StripEnd(a0: seq<bv8>, a: seq<bv8>, len: nat)
    requires len <= |a0| && a == Stripped(a0[..len]) + a0[len..]
    ensures a[..len] == Stripped(a0[..len]) && a[len..] == a0[len..]
  {
  }

  /** The worker's outcome r and buffer text match the specification's outcome c. */
  ghost predicate Matches(r: Result<nat, Reject>, text: seq<bv8>, c: Result<Checked, Reject>)
  {
    && (c.Success? ==> r == Success(c.value.err) && text == c.value.txt)
    && (c.Failure? ==> r == Failure(c.error))
  }

  /** The single-bit fix of src/acars.c:190-196 for table entry i: `err` is 1. */
  method FixSingle(blk: MsgBlk, i: nat) returns (r: Result<nat, Reject>)
    requires Sized(blk)
    modifies blk.txt
    ensures Matches(r, blk.txt[..blk.len], Tagged(Fix(old(blk.txt[..blk.len]), i / 8, BitMasks[i % 8]), 1))
  {
    OneShifted(i % 8);
    var ok := FixErr(blk, i / 8, (1 as bv8) << (i % 8));
    if !ok {
      return Failure(FixOutsideBlock);
    }
    return Success(1);
  }

  /** The two-bit search and fix of src/acars.c:198-224 for residue crc: `err` is 2. */
  method FixDouble(blk: MsgBlk, t: Tables, crc: Register) returns (r: Result<nat, Reject>)
    requires Sized(blk) && t.WellSized()
    modifies blk.txt
    ensures var n := FirstMatch(t.twoerr, crc);
      && (n.None? ==> r == Failure(NoSyndromeMatch))
      && (n.Some? ==>
            && n.value / PairSpan < PairCount
            && Matches(r, blk.txt[..blk.len],
                 Tagged(Fix(old(blk.txt[..blk.len]), n.value % PairSpan, PairMask(n.value / PairSpan)), 2)))
  {
    var two, sft, msk := FindTwoErr(t, crc);
    if two.None? {
      return Failure(NoSyndromeMatch);
    }
    var ok := FixErr(blk, sft, msk);
    if !ok {
      return Failure(FixOutsideBlock);
    }
    return Success(2);
  }

  /**
   * The repair of a block with nonzero residue crc (src/acars.c:186-234): the
   * single-bit search and fix, else the two-bit search and fix under its conditions.
   */
  method RepairResidue(blk: MsgBlk, t: Tables, pn: nat, crc: Register) returns (r: Result<nat, Reject>)
    requires Sized(blk) && t.WellSized()
    requires crc == BlockResidue(blk.txt[..blk.len], blk.crc0, blk.crc1) && crc != Clear
    modifies blk.txt
    ensures Matches(r, blk.txt[..blk.len], Repair(old(blk.txt[..blk.len]), blk.crc0, blk.crc1, pn, t))
  {
    var one := FindOneErr(t, crc);
    if one.Some? {
      RepairedByOne(blk.txt[..blk.len], blk.crc0, blk.crc1, pn, t, one.value);
      r := FixSingle(blk, one.value);
    } else {
      r := RepairPair(blk, t, pn, crc);
    }
  }

  /**
   * The two-bit stage (src/acars.c:198-234), reached when the single-bit table has no
   * entry for the residue: tried only with no parity error in a block under 142 bytes.
   */
  method RepairPair(blk: MsgBlk, t: Tables, pn: nat, crc: Register) returns (r: Result<nat, Reject>)
    requires Sized(blk) && t.WellSized()
    requires crc == BlockResidue(blk.txt[..blk.len], blk.crc0, blk.crc1) && crc != Clear
    requires FirstMatch(t.oneerr, crc).None?
    modifies blk.txt
    ensures Matches(r, blk.txt[..blk.len], Repair(old(blk.txt[..blk.len]), blk.crc0, blk.crc1, pn, t))
  {
    if pn == 0 && blk.len < 142 {
      ghost var txt := blk.txt[..blk.len];
      r := FixDouble(blk, t, crc);
      if FirstMatch(t.twoerr, crc).Some? {
        RepairedByTwo(txt, blk.crc0, blk.crc1, t, FirstMatch(t.twoerr, crc).value);
      }
    } else {
      r := Failure(NoSyndromeMatch);
    }
  }

  /**
   * The CRC check and repair (src/acars.c:177-234) of a block whose byte 12 is forced
   * and which has pn even-parity bytes: the residue, then the repair of a nonzero one;
   * `err` on success.
   */
  method RepairBlock(blk: MsgBlk, t: Tables, pn: nat) returns (r: Result<nat, Reject>)
    requires Sized(blk) && t.WellSized()
    modifies blk.txt
    ensures Matches(r, blk.txt[..blk.len], Repair(old(blk.txt[..blk.len]), blk.crc0, blk.crc1, pn, t))
  {
    var crc := ComputeResidue(blk);
    if crc == Clear {
      r := Success(0);
    } else {
      r := RepairResidue(blk, t, pn, crc);
    }
  }

  /**
   * The validation of one dequeued block (src/acars.c:152-249): the length gate, the
   * forced byte 12, the parity gate, repair and the second parity pass, in place;
   * on success the buffer holds the stripped text and the result is `err`.
   */
  method CheckBlock(blk: MsgBlk, t: Tables) returns (r: Result<nat, Reject>)
    requires Sized(blk) && t.WellSized()
    modifies blk.txt
    ensures Matches(r, blk.txt[..blk.len], Validate(old(blk.txt[..blk.len]), blk.crc0, blk.crc1, t))
  {
    if blk.len < 13 {
      return Failure(TooShort);
    }
    ForceByte12(blk);
    var pn := CountParityErrors(blk);
    if pn > 1 {
      return Failure(ParityErrors(pn));
    }
    r := RepairBlock(blk, t, pn);
    if r.Failure? {
      return;
    }
    var pn2 := StripParity(blk);
    if pn2 > 0 {
      return Failure(ParityAfterFix(pn2));
    }
  }

  /** What `strcpy` copies from a text that holds a NUL at j and none before it, or none at all up to j = |s|. */
  lemma UntilNulAt(s: seq<bv8>, j: nat)
    requires j <= |s| && (j < |s| ==> s[j] == 0)
    requires forall i :: 0 <= i < j ==> s[i] != 0
    ensures UntilNul(s) == s[..j]
  {
  }

  /** The fixed fields at the head of the record (src/acars.c:258-281), read at their offsets. */
  method ReadHeader(blk: MsgBlk) returns (mode: bv8, addr: seq<bv8>, ack: bv8, lab: seq<bv8>, bid: bv8, bs: bv8)
    requires Sized(blk) && blk.len >= HeaderSize
    ensures mode == blk.txt[0] && addr == blk.txt[1..8] && ack == blk.txt[8]
    ensures lab == [blk.txt[9], LabelChar(blk.txt[10])] && bid == blk.txt[11] && bs == blk.txt[12]
  {
    var k := 0;
    mode := blk.txt[k];
    k := k + 1;
    addr := [];
    var i := 0;
    while i < 7
      invariant 0 <= i <= 7 && k == 1 + i
      invariant addr == blk.txt[1..k]
    {
      addr := addr + [blk.txt[k]];
      i, k := i + 1, k + 1;
    }
    ack := blk.txt[k];
    k := k + 1;
    var label0 := blk.txt[k];
    k := k + 1;
    var label1 := blk.txt[k];
    if label1 == 0x7f {
      label1 := 'd' as bv8;
    }
    k := k + 1;
    lab := [label0, label1];
    bid := blk.txt[k];
    k := k + 1;
    bs := blk.txt[k];
  }

  /**
   * A copy loop bounded by n and by the byte before the last (src/acars.c:284-294):
   * the bytes from k on, at most n of them.
   */
  method CopyField(blk: MsgBlk, k: int, n: nat) returns (f: seq<bv8>)
    requires Sized(blk) && 0 <= k <= blk.len - 1
    ensures f == Take(blk.txt[k..blk.len - 1], n)
  {
    f := [];
    var i := 0;
    while i < n && k + i < blk.len - 1
      invariant 0 <= i <= n && k + i <= blk.len - 1
      invariant f == blk.txt[k..k + i]
    {
      f := f + [blk.txt[k + i]];
      i := i + 1;
    }
  }

  /** `strcpy` from byte k of a buffer whose last text byte is NUL (src/acars.c:296-297). */
  method CopyText(blk: MsgBlk, k: int) returns (text: seq<bv8>)
    requires Sized(blk) && 0 <= k <= blk.len - 1 && blk.txt[blk.len - 1] == 0
    ensures text == UntilNul(blk.txt[k..blk.len - 1])
  {
    ghost var s := blk.txt[k..blk.len - 1];
    text := [];
    var j := k;
    while blk.txt[j] != 0
      invariant k <= j <= blk.len - 1
      invariant text == s[..j - k]
      invariant forall x :: 0 <= x < j - k ==> s[x] != 0
      decreases blk.len - 1 - j
    {
      assert s[j - k] == blk.txt[j];
      text := text + [blk.txt[j]];
      j := j + 1;
    }
    UntilNulAt(s, j - k);
  }

  /**
   * The fields after the header of a block longer than 13 bytes (src/acars.c:283-298):
   * the message number, the block end byte, the flight id and the text, which `strcpy`
   * copies after the last byte is overwritten with NUL.
   */
  method ReadBody(blk: MsgBlk) returns (no: seq<bv8>, be: bv8, fid: seq<bv8>, text: seq<bv8>)
    requires Sized(blk) && blk.len > HeaderSize
    modifies blk.txt
    ensures var body := old(blk.txt[HeaderSize..blk.len - 1]);
      && no == Take(body, NoSize)
      && fid == Take(body[|no|..], FidSize)
      && text == UntilNul(body[|no| + |fid|..])
    ensures be == old(blk.txt[blk.len - 1])
  {
    ghost var body := blk.txt[HeaderSize..blk.len - 1];
    var k := HeaderSize;
    no := CopyField(blk, k, NoSize);
    k := k + |no|;
    be := blk.txt[blk.len - 1];
    assert blk.txt[k..blk.len - 1] == body[|no|..];
    fid := CopyField(blk, k, FidSize);
    k := k + |fid|;
    ghost var tail := body[|no| + |fid|..];
    assert blk.txt[k..blk.len - 1] == tail;
    blk.txt[blk.len - 1] := 0;
    assert blk.txt[k..blk.len - 1] == tail;
    text := CopyText(blk, k);
  }

  /**
   * The filling of the message record (src/acars.c:252-298) from a validated block:
   * the fixed fields read at their offsets, then, for blocks longer than 13 bytes,
   * the fields that follow.
   */
  method FillMessage(blk: MsgBlk, err: nat) returns (m: Message)
    requires Sized(blk) && blk.len >= HeaderSize
    modifies blk.txt
    ensures m == Parse(old(blk.txt[..blk.len]), err, blk.lvl)
  {
    ghost var txt := blk.txt[..blk.len];
    var mode, addr, ack, lab, bid, bs := ReadHeader(blk);
    assert addr == txt[1..8];
    if HeaderSize < blk.len {
      ghost var body := txt[HeaderSize..blk.len - 1];
      assert body == blk.txt[HeaderSize..blk.len - 1];
      var no, be, fid, text := ReadBody(blk);
      m := Message(mode, addr, ack, lab, bid, bs, Some(no), Some(be), fid, text, err, blk.lvl);
      assert HeaderOf(txt, m);
      ParsedLong(txt, m, body, body[|no| + |fid|..]);
    } else {
      m := Message(mode, addr, ack, lab, bid, bs, None, None, [], [], err, blk.lvl);
      assert HeaderOf(txt, m);
      ParsedShort(txt, m);
    }
  }

  /**
   * What the worker makes of one block (src/acars.c:152-298): the record of the
   * validated text with its error indicator and the block's level, or the reason the
   * block was dropped.
   */
  function Decode(txt: seq<bv8>, c0: bv8, c1: bv8, lvl: int, t: Tables): Result<Message, Reject>
    requires t.WellSized()
  {
    match Validate(txt, c0, c1, t)
    case Failure(e) => Failure(e)
    case Success(c) =>
      Accepted(txt, c0, c1, t);
      Success(Parse(c.txt, c.err, lvl))
  }

  /** One iteration of the worker loop on a dequeued block, in place on its buffer. */
  method ProcessBlock(blk: MsgBlk, t: Tables) returns (r: Result<Message, Reject>)
    requires Sized(blk) && t.WellSized()
    modifies blk.txt
    ensures r == Decode(old(blk.txt[..blk.len]), blk.crc0, blk.crc1, blk.lvl, t)
  {
    var v := CheckBlock(blk, t);
    if v.Failure? {
      return Failure(v.error);
    }
    Accepted(old(blk.txt[..blk.len]), blk.crc0, blk.crc1, t);
    var m := FillMessage(blk, v.value);
    return Success(m);
  }

  /** A block received as sent decodes to the record of its stripped text, with `err` 0. */
  lemma DecodeClean(txt: seq<bv8>, c0: bv8, c1: bv8, lvl: int, t: Tables)
    requires Sent(txt, c0, c1) && t.WellSized()
    ensures Decode(txt, c0, c1, lvl, t) == Success(Parse(Stripped(txt), 0, lvl))
  {
    CleanBlockAccepted(txt, c0, c1, t);
  }

  /**
   * A block received with one flipped bit, not in byte 12 nor the last byte and within
   * the single-bit table's 241 distances, decodes to the record of the block as sent,
   * with `err` 1.
   */
  lemma DecodeSingleBitError(txt: seq<bv8>, c0: bv8, c1: bv8, lvl: int, p: nat, k: nat, t: Tables)
    requires Sent(txt, c0, c1)
    requires SyndromeTables(t) && DistinctOneErr(t)
    requires p < |txt| - 1 && p != 12 && |txt| + 1 - p < 242 && k < 8
    ensures Decode(txt[p := txt[p] ^ BitMasks[k]], c0, c1, lvl, t) == Success(Parse(Stripped(txt), 1, lvl))
  {
    SingleBitErrorRepaired(txt, c0, c1, p, k, t);
  }

  /**
   * A block under 142 bytes received with two flipped bits of one byte decodes to the
   * record of the block as sent, with `err` 2.  Byte 12, the last byte and byte 0 of a
   * 141-byte block are left out, as in `TwoBitErrorRepaired`.
   */
  lemma DecodeTwoBitError(txt: seq<bv8>, c0: bv8, c1: bv8, lvl: int, p: nat, q: nat, t: Tables)
    requires Sent(txt, c0, c1) && |txt| < 142
    requires SyndromeTables(t) && DistinctTwoErr(t)
    requires p < |txt| - 1 && p != 12 && |txt| + 1 - p < PairSpan && q < PairCount
    ensures Decode(txt[p := txt[p] ^ PairMask(q)], c0, c1, lvl, t) == Success(Parse(Stripped(txt), 2, lvl))
  {
    TwoBitErrorRepaired(txt, c0, c1, p, q, t);
  }

  /** Every decoded record is well formed and re-encodes to the validated text. */
  lemma DecodedWellFormed(txt: seq<bv8>, c0: bv8, c1: bv8, lvl: int, t: Tables)
    requires t.WellSized() && Decode(txt, c0, c1, lvl, t).Success?
    ensures var m := Decode(txt, c0, c1, lvl, t).value;
      && WellFormed(m) && m.err <= 2 && m.lvl == lvl
      && |Encode(m)| <= |txt|
  {
    var c := Validate(txt, c0, c1, t).value;
    Accepted(txt, c0, c1, t);
    ParseWellFormed(c.txt, c.err, lvl);
  }
}
