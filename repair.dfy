/**
 * What the repair of src/acars.c:186-234 achieves, when the tables of syndrom.h
 * hold what `fixerr` takes them to hold: entry 8*d + b of the single-bit table is
 * the residue of bit b flipped d bytes before the end of the text-and-CRC stream
 * (distances 0 and 1 are the two CRC bytes), and entry 142*q + d of the two-bit
 * table is the residue of the bit pair q flipped in the byte at distance d.
 */
module RepairProofs {
  import opened Wrappers
  import opened Acars
  import opened Crc
  import opened Validation

  /** Entry i of the single-bit table: bit i % 8 flipped i / 8 bytes before the end. */
  predicate OneErrEntry(oneerr: seq<Register>, i: nat)
    requires i < |oneerr|
  {
    oneerr[i] == Syndrome(i / 8, BitMasks[i % 8])
  }

  /** Entry n of the two-bit table: pair n / 142 flipped n % 142 bytes before the end. */
  predicate TwoErrEntry(twoerr: seq<Register>, n: nat)
    requires n < |twoerr| <= PairCount * PairSpan
  {
    twoerr[n] == Syndrome(n % PairSpan, PairMask(n / PairSpan))
  }

  /** Entries i and j of a table differ. */
  predicate Apart(table: seq<Register>, i: nat, j: nat)
    requires i < |table| && j < |table|
  {
    table[i] != table[j]
  }

  /** The table contents the repair assumes, of the sizes the source declares. */
  predicate SyndromeTables(t: Tables)
  {
    && t.WellSized()
    && (forall i :: 0 <= i < |t.oneerr| ==> OneErrEntry(t.oneerr, i))
    && (forall n :: 0 <= n < |t.twoerr| ==> TwoErrEntry(t.twoerr, n))
  }

  /** No residue appears twice in the single-bit table. */
  predicate DistinctOneErr(t: Tables)
  {
    forall i, j :: 0 <= i < j < |t.oneerr| ==> Apart(t.oneerr, i, j)
  }

  /** No residue appears twice in the two-bit table, nor in both tables. */
  predicate DistinctTwoErr(t: Tables)
  {
    && (forall i, j :: 0 <= i < j < |t.twoerr| ==> Apart(t.twoerr, i, j))
    && (forall i, n :: 0 <= i < |t.oneerr| && 0 <= n < |t.twoerr| ==> t.oneerr[i] != t.twoerr[n])
  }

  /**
   * A block as sent: at least 13 bytes, a start-of-text or end-of-text marker in byte 12,
   * every byte of odd parity and a CRC that leaves a zero residue.
   */
  predicate Sent(txt: seq<bv8>, c0: bv8, c1: bv8)
  {
    && |txt| >= 13
    && (txt[12] == STX || txt[12] == ETX)
    && (forall i :: 0 <= i < |txt| ==> OddParity(txt[i]))
    && BlockResidue(txt, c0, c1) == Clear
  }

  /** An error-free block is accepted unchanged but for its parity bits, with `err` 0. */
  lemma CleanBlockAccepted(txt: seq<bv8>, c0: bv8, c1: bv8, t: Tables)
    requires Sent(txt, c0, c1) && t.WellSized()
    ensures Validate(txt, c0, c1, t) == Success(Checked(Stripped(txt), 0))
  {
    EvenCountZero(txt);
    assert ForceStart(txt) == txt;
  }

  /** A lookup of a table entry finds that entry when no earlier entry is equal to it. */
  lemma FindsEntry(table: seq<Register>, i: nat)
    requires i < |table|
    requires forall j :: 0 <= j < i ==> table[j] != table[i]
    ensures FirstMatch(table, table[i]) == Some(i)
  {
  }

  /** The residue after a bit error is the syndrome of its distance from the end. */
  lemma CorruptedResidue(txt: seq<bv8>, c0: bv8, c1: bv8, p: nat, m: bv8)
    requires BlockResidue(txt, c0, c1) == Clear && p < |txt|
    ensures BlockResidue(txt[p := txt[p] ^ m], c0, c1) == Syndrome(|txt| + 1 - p, m)
  {
    var s := txt + [c0, c1];
    assert txt[p := txt[p] ^ m] + [c0, c1] == s[p := s[p] ^ m];
    FlipResidue(s, p, m);
  }

  /** An error away from byte 12 leaves the forcing with nothing to do. */
  lemma ForceKeeps(txt: seq<bv8>, p: nat, x: bv8)
    requires |txt| >= 13 && (txt[12] == STX || txt[12] == ETX) && p < |txt| && p != 12
    ensures ForceStart(txt[p := x]) == txt[p := x]
  {
  }

  /** A single-bit syndrome of distance d < 242 is found at entry 8 * d + k. */
  lemma OneErrFound(t: Tables, d: nat, k: nat)
    requires SyndromeTables(t) && DistinctOneErr(t) && d < 242 && k < 8
    ensures FirstMatch(t.oneerr, Syndrome(d, BitMasks[k])) == Some(8 * d + k)
  {
    var i := 8 * d + k;
    assert i / 8 == d && i % 8 == k;
    assert OneErrEntry(t.oneerr, i);
    forall j | 0 <= j < i
      ensures t.oneerr[j] != t.oneerr[i]
    {
      assert Apart(t.oneerr, j, i);
    }
    FindsEntry(t.oneerr, i);
  }

  /** A two-bit syndrome of distance d < 142 is found at entry 142 * q + d and in no single-bit entry. */
  lemma TwoErrFound(t: Tables, d: nat, q: nat)
    requires SyndromeTables(t) && DistinctTwoErr(t) && d < PairSpan && q < PairCount
    ensures FirstMatch(t.twoerr, Syndrome(d, PairMask(q))) == Some(PairSpan * q + d)
    ensures FirstMatch(t.oneerr, Syndrome(d, PairMask(q))).None?
  {
    var n := PairSpan * q + d;
    assert n / PairSpan == q && n % PairSpan == d;
    assert TwoErrEntry(t.twoerr, n);
    forall j | 0 <= j < n
      ensures t.twoerr[j] != t.twoerr[n]
    {
      assert Apart(t.twoerr, j, n);
    }
    FindsEntry(t.twoerr, n);
  }

  /** One flipped bit in an all-odd text leaves exactly one even-parity byte. */
  lemma OneBitParity(txt: seq<bv8>, p: nat, k: nat)
    requires (forall i :: 0 <= i < |txt| ==> OddParity(txt[i])) && p < |txt| && k < 8
    ensures EvenCount(txt[p := txt[p] ^ BitMasks[k]]) == 1
  {
    EvenCountZero(txt);
    FlipBitParity(txt[p], k);
    EvenCountUpdate(txt, p, txt[p] ^ BitMasks[k]);
  }

  /** Two flipped bits of one byte in an all-odd text leave no even-parity byte. */
  lemma TwoBitParity(txt: seq<bv8>, p: nat, q: nat)
    requires (forall i :: 0 <= i < |txt| ==> OddParity(txt[i])) && p < |txt| && q < PairCount
    ensures EvenCount(txt[p := txt[p] ^ PairMask(q)]) == 0
  {
    EvenCountZero(txt);
    FlipPairParity(txt[p], q);
    EvenCountUpdate(txt, p, txt[p] ^ PairMask(q));
  }

  /** Masks of one and of two bits are nonzero. */
  lemma MasksNonZero(k: nat, q: nat)
    requires k < 8 && q < PairCount
    ensures BitMasks[k] != 0 && PairMask(q) != 0
  {
    MaskAnd(k, k);
    PairMaskXor(q);
    MaskAnd(Pair(q).0, Pair(q).1);
    MaskAnd(Pair(q).0, Pair(q).0);
  }

  /** A block whose residue is the syndrome of bit k at distance d is repaired through entry 8 * d + k. */
  lemma OneErrLookup(bad: seq<bv8>, c0: bv8, c1: bv8, pn: nat, t: Tables, d: nat, k: nat)
    requires SyndromeTables(t) && DistinctOneErr(t) && d < 242 && k < 8
    requires BlockResidue(bad, c0, c1) == Syndrome(d, BitMasks[k])
    ensures Repair(bad, c0, c1, pn, t) == Tagged(Fix(bad, d, BitMasks[k]), 1)
  {
    MasksNonZero(k, 0);
    SyndromeNonZero(d, BitMasks[k]);
    OneErrFound(t, d, k);
    var i := 8 * d + k;
    assert i / 8 == d && i % 8 == k;
    RepairedByOne(bad, c0, c1, pn, t, i);
  }

  /** A block whose residue is the syndrome of pair q at distance d is repaired through entry 142 * q + d. */
  lemma TwoErrLookup(bad: seq<bv8>, c0: bv8, c1: bv8, t: Tables, d: nat, q: nat)
    requires SyndromeTables(t) && DistinctTwoErr(t) && d < PairSpan && q < PairCount && |bad| < 142
    requires BlockResidue(bad, c0, c1) == Syndrome(d, PairMask(q))
    ensures Repair(bad, c0, c1, 0, t) == Tagged(Fix(bad, d, PairMask(q)), 2)
  {
    MasksNonZero(0, q);
    SyndromeNonZero(d, PairMask(q));
    TwoErrFound(t, d, q);
    var n := PairSpan * q + d;
    assert n / PairSpan == q && n % PairSpan == d;
    RepairedByTwo(bad, c0, c1, t, n);
  }

  /** A bit k flipped in byte p of a block with a clear residue is looked up at distance |txt| + 1 - p. */
  lemma FlipFoundByOne(txt: seq<bv8>, c0: bv8, c1: bv8, pn: nat, t: Tables, p: nat, k: nat)
    requires BlockResidue(txt, c0, c1) == Clear && p < |txt| && |txt| + 1 - p < 242 && k < 8
    requires SyndromeTables(t) && DistinctOneErr(t)
    ensures var bad := txt[p := txt[p] ^ BitMasks[k]];
      Repair(bad, c0, c1, pn, t) == Tagged(Fix(bad, |txt| + 1 - p, BitMasks[k]), 1)
  {
    CorruptedResidue(txt, c0, c1, p, BitMasks[k]);
    OneErrLookup(txt[p := txt[p] ^ BitMasks[k]], c0, c1, pn, t, |txt| + 1 - p, k);
  }

  /** A bit pair q flipped in byte p of a block with a clear residue is looked up at distance |txt| + 1 - p. */
  lemma FlipFoundByTwo(txt: seq<bv8>, c0: bv8, c1: bv8, t: Tables, p: nat, q: nat)
    requires BlockResidue(txt, c0, c1) == Clear && p < |txt| < 142 && |txt| + 1 - p < PairSpan && q < PairCount
    requires SyndromeTables(t) && DistinctTwoErr(t)
    ensures var bad := txt[p := txt[p] ^ PairMask(q)];
      Repair(bad, c0, c1, 0, t) == Tagged(Fix(bad, |txt| + 1 - p, PairMask(q)), 2)
  {
    CorruptedResidue(txt, c0, c1, p, PairMask(q));
    TwoErrLookup(txt[p := txt[p] ^ PairMask(q)], c0, c1, t, |txt| + 1 - p, q);
  }

  /**
   * One flipped bit in a text byte other than the last and byte 12, at a distance the
   * single-bit table covers (every byte but byte 0 of a 241-byte block), is found
   * through the table and flipped back: the block is accepted as sent, with `err` 1.
   */
  lemma SingleBitErrorRepaired(txt: seq<bv8>, c0: bv8, c1: bv8, p: nat, k: nat, t: Tables)
    requires Sent(txt, c0, c1)
    requires SyndromeTables(t) && DistinctOneErr(t)
    requires p < |txt| - 1 && p != 12 && |txt| + 1 - p < 242 && k < 8
    ensures Validate(txt[p := txt[p] ^ BitMasks[k]], c0, c1, t) == Success(Checked(Stripped(txt), 1))
  {
    var bad := txt[p := txt[p] ^ BitMasks[k]];
    assert ForceStart(bad) == bad && EvenCount(bad) == 1 by {
      ForceKeeps(txt, p, txt[p] ^ BitMasks[k]);
      OneBitParity(txt, p, k);
    }
    assert Repair(bad, c0, c1, 1, t) == Success(Checked(txt, 1)) by {
      FlipFoundByOne(txt, c0, c1, 1, t, p, k);
      FixUndoesFlip(txt, p, BitMasks[k]);
    }
    assert EvenCount(txt) == 0 by {
      EvenCountZero(txt);
    }
    AcceptedAfter(bad, c0, c1, t, Checked(txt, 1));
  }

  /**
   * One flipped bit in crc[1] matches the single-bit entry of distance 0, which
   * `fixerr` leaves alone: the text is accepted as sent, with `err` 1.
   */
  lemma Crc1ErrorIgnored(txt: seq<bv8>, c0: bv8, c1: bv8, k: nat, t: Tables)
    requires Sent(txt, c0, c1)
    requires SyndromeTables(t) && DistinctOneErr(t)
    requires k < 8
    ensures Validate(txt, c0, c1 ^ BitMasks[k], t) == Success(Checked(Stripped(txt), 1))
  {
    EvenCountZero(txt);
    assert ForceStart(txt) == txt && EvenCount(txt) == 0;
    assert Repair(txt, c0, c1 ^ BitMasks[k], 0, t) == Success(Checked(txt, 1)) by {
      FlipCrc1Residue(txt, c0, c1, BitMasks[k]);
      OneErrLookup(txt, c0, c1 ^ BitMasks[k], 0, t, 0, k);
    }
    AcceptedAfter(txt, c0, c1 ^ BitMasks[k], t, Checked(txt, 1));
  }

  /**
   * One flipped bit in crc[0] matches the single-bit entry of distance 1, which
   * `fixerr` leaves alone too: the text is accepted as sent, with `err` 1.
   */
  lemma Crc0ErrorIgnored(txt: seq<bv8>, c0: bv8, c1: bv8, k: nat, t: Tables)
    requires Sent(txt, c0, c1)
    requires SyndromeTables(t) && DistinctOneErr(t)
    requires k < 8
    ensures Validate(txt, c0 ^ BitMasks[k], c1, t) == Success(Checked(Stripped(txt), 1))
  {
    EvenCountZero(txt);
    assert ForceStart(txt) == txt && EvenCount(txt) == 0;
    assert Repair(txt, c0 ^ BitMasks[k], c1, 0, t) == Success(Checked(txt, 1)) by {
      FlipCrc0Residue(txt, c0, c1, BitMasks[k]);
      OneErrLookup(txt, c0 ^ BitMasks[k], c1, 0, t, 1, k);
    }
    AcceptedAfter(txt, c0 ^ BitMasks[k], c1, t, Checked(txt, 1));
  }

  /** A flip in crc[1], the last byte fed, leaves the syndrome of distance 0. */
  lemma FlipCrc1Residue(txt: seq<bv8>, c0: bv8, c1: bv8, m: bv8)
    requires BlockResidue(txt, c0, c1) == Clear
    ensures BlockResidue(txt, c0, c1 ^ m) == Syndrome(0, m)
  {
    var s := txt + [c0, c1];
    assert txt + [c0, c1 ^ m] == s[|txt| + 1 := s[|txt| + 1] ^ m];
    FlipResidue(s, |txt| + 1, m);
  }

  /** A flip in crc[0] leaves the syndrome of distance 1. */
  lemma FlipCrc0Residue(txt: seq<bv8>, c0: bv8, c1: bv8, m: bv8)
    requires BlockResidue(txt, c0, c1) == Clear
    ensures BlockResidue(txt, c0 ^ m, c1) == Syndrome(1, m)
  {
    var s := txt + [c0, c1];
    assert txt + [c0 ^ m, c1] == s[|txt| := s[|txt|] ^ m];
    FlipResidue(s, |txt|, m);
  }

  /**
   * One flipped bit in the last text byte matches a single-bit entry of distance 2,
   * which `fixerr` leaves alone (`sft <= 2`): `err` is set, yet the byte keeps its
   * error and the second parity pass drops the block.
   */
  lemma LastByteErrorRejected(txt: seq<bv8>, c0: bv8, c1: bv8, k: nat, t: Tables)
    requires Sent(txt, c0, c1) && |txt| > 13
    requires SyndromeTables(t) && DistinctOneErr(t)
    requires k < 8
    ensures var p := |txt| - 1;
      Validate(txt[p := txt[p] ^ BitMasks[k]], c0, c1, t) == Failure(ParityAfterFix(1))
  {
    var p := |txt| - 1;
    var bad := txt[p := txt[p] ^ BitMasks[k]];
    assert ForceStart(bad) == bad && EvenCount(bad) == 1 by {
      ForceKeeps(txt, p, txt[p] ^ BitMasks[k]);
      OneBitParity(txt, p, k);
    }
    assert Repair(bad, c0, c1, 1, t) == Success(Checked(bad, 1)) by {
      FlipFoundByOne(txt, c0, c1, 1, t, p, k);
    }
    RejectedAfter(bad, c0, c1, t, Checked(bad, 1));
  }

  /**
   * Two flipped bits of one text byte in a block under 142 bytes are found through the
   * two-bit table and flipped back: the block is accepted as sent, with `err` 2.  Three
   * bytes are left out: byte 12, which the forcing may rewrite; the last byte, which
   * `fixerr` does not fix (`LastBytePairAccepted`); and byte 0 of a 141-byte block,
   * whose distance 142 lies beyond the two-bit table.
   */
  lemma TwoBitErrorRepaired(txt: seq<bv8>, c0: bv8, c1: bv8, p: nat, q: nat, t: Tables)
    requires Sent(txt, c0, c1) && |txt| < 142
    requires SyndromeTables(t) && DistinctTwoErr(t)
    requires p < |txt| - 1 && p != 12 && |txt| + 1 - p < PairSpan && q < PairCount
    ensures Validate(txt[p := txt[p] ^ PairMask(q)], c0, c1, t) == Success(Checked(Stripped(txt), 2))
  {
    var bad := txt[p := txt[p] ^ PairMask(q)];
    assert ForceStart(bad) == bad && EvenCount(bad) == 0 by {
      ForceKeeps(txt, p, txt[p] ^ PairMask(q));
      TwoBitParity(txt, p, q);
    }
    assert Repair(bad, c0, c1, 0, t) == Success(Checked(txt, 2)) by {
      FlipFoundByTwo(txt, c0, c1, t, p, q);
      FixUndoesFlip(txt, p, PairMask(q));
    }
    assert EvenCount(txt) == 0 by {
      EvenCountZero(txt);
    }
    AcceptedAfter(bad, c0, c1, t, Checked(txt, 2));
  }

  /**
   * Two flipped bits of the last text byte match the two-bit entry of distance 2, which
   * `fixerr` leaves alone (`sft <= 2`).  The parity stays odd, so the block is accepted
   * with `err` 2 and the corrupted byte, which no longer strips to the byte sent.
   */
  lemma LastBytePairAccepted(txt: seq<bv8>, c0: bv8, c1: bv8, q: nat, t: Tables)
    requires Sent(txt, c0, c1) && 13 < |txt| < 142
    requires SyndromeTables(t) && DistinctTwoErr(t)
    requires q < PairCount
    ensures var p := |txt| - 1;
      var bad := txt[p := txt[p] ^ PairMask(q)];
      && Validate(bad, c0, c1, t) == Success(Checked(Stripped(bad), 2))
      && Stripped(bad)[p] != Stripped(txt)[p]
  {
    var p := |txt| - 1;
    var bad := txt[p := txt[p] ^ PairMask(q)];
    assert ForceStart(bad) == bad && EvenCount(bad) == 0 by {
      ForceKeeps(txt, p, txt[p] ^ PairMask(q));
      TwoBitParity(txt, p, q);
    }
    assert Repair(bad, c0, c1, 0, t) == Success(Checked(bad, 2)) by {
      FlipFoundByTwo(txt, c0, c1, t, p, q);
      assert Fix(bad, 2, PairMask(q)) == Success(bad);
    }
    AcceptedAfter(bad, c0, c1, t, Checked(bad, 2));
    PairStrips(txt, p, q);
  }

  /** A flipped bit pair always includes one of the seven bits that stripping keeps. */
  lemma PairStrips(txt: seq<bv8>, p: nat, q: nat)
    requires p < |txt| && q < PairCount
    ensures Stripped(txt[p := txt[p] ^ PairMask(q)])[p] != Stripped(txt)[p]
  {
    PairMaskXor(q);
    var b := txt[p];
    var k, l := Pair(q).0, Pair(q).1;
    var mk, ml := BitMasks[k], BitMasks[l];
    assert ml & 0x7f == ml != 0;
    assert mk & ml == 0 by { MaskAnd(k, l); }
    assert (b ^ (mk ^ ml)) & 0x7f != b & 0x7f;
  }
}
