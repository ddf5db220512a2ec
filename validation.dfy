/**
 * Validation and repair of one received block: the body of one iteration of the
 * worker loop (src/acars.c:152-249), written as a specification on values.
 *
 * In order: a block shorter than 13 bytes is rejected; byte 12 (the STX/ETX
 * marker) is forced; the odd-parity gate counts even-parity bytes and rejects
 * more than one; the CRC residue over the text and the two CRC bytes is taken;
 * a nonzero residue is looked up in the single-bit syndrome table and then,
 * under conditions, in the two-bit table, and the bits found are flipped back;
 * a second parity pass rejects any remaining even-parity byte and strips bit 7.
 *
 * The syndrome tables come from syndrom.h, which is not part of this model:
 * they are parameters of the fixed sizes the source declares.
 */
module Validation {
  import opened Wrappers
  import opened Acars
  import opened Crc

  /** Number of set bits in s. */
  function Ones(s: seq<bool>): (n: nat)
    ensures n <= |s|
  {
    if s == [] then 0 else Ones(s[..|s| - 1]) + (if s[|s| - 1] then 1 else 0)
  }

  /** The `numbits` table: the number of set bits of a byte. */
  function NumBits(b: bv8): (n: nat)
    ensures n <= 8
  {
    Ones(Bits(b))
  }

  /** ACARS characters carry odd parity: an odd number of set bits. */
  predicate OddParity(b: bv8)
  {
    NumBits(b) % 2 == 1
  }

  /** The number of bytes of s whose parity is even (`pn` in the source). */
  function EvenCount(s: seq<bv8>): (n: nat)
    ensures n <= |s|
  {
    if s == [] then 0
    else EvenCount(s[..|s| - 1]) + (if OddParity(s[|s| - 1]) then 0 else 1)
  }

  /** No byte has even parity exactly when every byte has odd parity. */
  lemma {:induction false} EvenCountZero(s: seq<bv8>)
    ensures EvenCount(s) == 0 <==> forall i :: 0 <= i < |s| ==> OddParity(s[i])
  {
    if s != [] {
      var n := |s| - 1;
      EvenCountZero(s[..n]);
      assert forall i :: 0 <= i < n ==> s[..n][i] == s[i];
    }
  }

  /**
   * Byte 12 forced to a start-of-text or end-of-text marker (src/acars.c:159-160):
   * `&= ETX|STX` keeps bits 0x80, 0x02 and 0x01, `|= ETX&STX` sets 0x02.
   */
  function ForceBlockStart(b: bv8): (r: bv8)
    ensures r == STX || r == ETX || r == 0x03 || r == 0x82
    ensures b == STX || b == ETX ==> r == b
  {
    (b & (ETX | STX)) | (ETX & STX)
  }

  /** The text with its byte 12 forced. */
  function ForceStart(txt: seq<bv8>): (r: seq<bv8>)
    requires |txt| >= 13
    ensures |r| == |txt| && r[12] == ForceBlockStart(txt[12])
    ensures forall i :: 0 <= i < |txt| && i != 12 ==> r[i] == txt[i]
  {
    txt[12 := ForceBlockStart(txt[12])]
  }

  /** A byte with its parity bit removed. */
  function Strip(b: bv8): (r: bv8)
    ensures r < 0x80
    ensures b < 0x80 ==> r == b
  {
    b & 0x7f
  }

  /** Every byte of s with its parity bit removed. */
  function Stripped(s: seq<bv8>): (r: seq<bv8>)
    ensures |r| == |s|
    ensures forall i :: 0 <= i < |s| ==> r[i] == Strip(s[i])
  {
    seq(|s|, i requires 0 <= i < |s| => Strip(s[i]))
  }

  /** The first index of table holding x, as a loop that breaks on the first match finds it. */
  function FirstMatch(table: seq<Register>, x: Register): (r: Option<nat>)
    ensures r.Some? ==> r.value < |table| && table[r.value] == x
    ensures r.Some? ==> forall j :: 0 <= j < r.value ==> table[j] != x
    ensures r.None? ==> forall j :: 0 <= j < |table| ==> table[j] != x
  {
    if table == [] then None
    else if table[0] == x then Some(0)
    else match FirstMatch(table[1..], x)
      case None => None
      case Some(i) => Some(i + 1)
  }

  /** Number of entries of the single-bit table: one per bit of 242 byte positions. */
  const OneErrSize: nat := 242 * 8

  /** Byte positions covered by each bit pair of the two-bit table. */
  const PairSpan: nat := 142

  /** Number of bit pairs within a byte. */
  const PairCount: nat := 28

  /** The syndrome tables of syndrom.h, of the sizes the source declares. */
  datatype Tables = Tables(oneerr: seq<Register>, twoerr: seq<Register>)
  {
    predicate WellSized()
    {
      |oneerr| == OneErrSize && |twoerr| == PairCount * PairSpan
    }
  }

  /** Number of bit pairs whose higher bit is below k. */
  function Tri(k: nat): nat
  {
    if k == 0 then 0 else Tri(k - 1) + (k - 1)
  }

  /**
   * The bit pair (k, l), l < k, of pair index p counted from pairs whose higher bit is k0:
   * the order in which the nested loops at src/acars.c:203-204 visit them.
   */
  function PairFrom(p: nat, k0: nat): (r: (nat, nat))
    requires k0 >= 1
    ensures r.1 < r.0 && k0 <= r.0
    decreases p
  {
    if p < k0 then (k0, p) else PairFrom(p - k0, k0 + 1)
  }

  /** The bit pair (higher bit, lower bit) of pair index p. */
  function Pair(p: nat): (nat, nat)
  {
    PairFrom(p, 1)
  }

  /** Pair index Tri(k) - Tri(k0) + l, counted from k0, is the pair (k, l). */
  lemma {:induction false} PairFromIndex(p: nat, k0: nat, k: nat, l: nat)
    requires 1 <= k0 <= k && l < k
    requires p == Tri(k) - Tri(k0) + l
    ensures PairFrom(p, k0) == (k, l)
    decreases k - k0
  {
    if k0 < k {
      TriGrows(k0 + 1, k);
      assert p - k0 == Tri(k) - Tri(k0 + 1) + l;
      PairFromIndex(p - k0, k0 + 1, k, l);
    }
  }

  lemma {:induction false} TriGrows(j: nat, k: nat)
    requires j <= k
    ensures Tri(j) <= Tri(k)
    decreases k - j
  {
    if j < k {
      TriGrows(j, k - 1);
    }
  }

  /** The pair index of the loop variables (k, l) is Tri(k) + l. */
  lemma PairIndex(k: nat, l: nat)
    requires l < k
    ensures Pair(Tri(k) + l) == (k, l)
  {
    assert Tri(1) == 0;
    PairFromIndex(Tri(k) + l, 1, k, l);
  }

  /** Every one of the 28 pair indices names two distinct bits of a byte. */
  lemma {:induction false} PairInByte(p: nat, k0: nat)
    requires 1 <= k0 <= 8 && p < Tri(8) - Tri(k0)
    ensures PairFrom(p, k0).0 < 8
    decreases p
  {
    TriGrows(k0, 8);
    if p >= k0 {
      assert Tri(k0 + 1) == Tri(k0) + k0;
      PairInByte(p - k0, k0 + 1);
    }
  }

  /** Pair index q names a lower and a higher bit of one byte. */
  lemma PairValid(q: nat)
    requires q < PairCount
    ensures Pair(q).1 < Pair(q).0 < 8
  {
    assert Tri(1) == 0 && Tri(8) == 28 by {
      assert Tri(2) == 1 && Tri(3) == 3 && Tri(4) == 6 && Tri(5) == 10 && Tri(6) == 15 && Tri(7) == 21;
    }
    PairInByte(q, 1);
  }

  /** The mask `u|v` of pair index p: its two bits set. */
  function PairMask(p: nat): (m: bv8)
    requires p < PairCount
  {
    PairValid(p);
    BitMasks[Pair(p).0] | BitMasks[Pair(p).1]
  }

  /** Why a block is dropped. */
  datatype Reject =
    | TooShort
    | ParityErrors(count: nat)
    | NoSyndromeMatch
    | FixOutsideBlock
    | ParityAfterFix(count: nat)

  /** An accepted block: its text and the error indicator `err` (0 clean, 1 or 2 bits fixed). */
  datatype Checked = Checked(txt: seq<bv8>, err: nat)

  /**
   * The byte `fixerr` writes for syndrome distance sft, as written
   * (src/acars.c:89): `len-1-(sft-2)`, with no bounds check.
   */
  function FixIndex(len: int, sft: int): int
  {
    len - 1 - (sft - 2)
  }

  /**
   * `fixerr` (src/acars.c:83-90) with the bounds check the source lacks.  Distances
   * 0 and 1 are the CRC bytes and 2 the last text byte: all three leave the text
   * as it is.  A distance beyond the block is rejected instead of writing before it.
   */
  function Fix(txt: seq<bv8>, sft: nat, msk: bv8): (r: Result<seq<bv8>, Reject>)
    ensures r.Success? ==> |r.value| == |txt|
  {
    if sft <= 2 then Success(txt)
    else if sft > |txt| + 1 then Failure(FixOutsideBlock)
    else
      var i := |txt| + 1 - sft;
      Success(txt[i := txt[i] ^ msk])
  }

  /** The outcome of a repair, tagged with its error indicator. */
  function Tagged(r: Result<seq<bv8>, Reject>, err: nat): Result<Checked, Reject>
  {
    match r
    case Success(t) => Success(Checked(t, err))
    case Failure(e) => Failure(e)
  }

  /** The residue the worker computes: the text, then crc[0], then crc[1]. */
  function BlockResidue(txt: seq<bv8>, c0: bv8, c1: bv8): Register
  {
    Residue(Clear, txt + [c0, c1])
  }

  /**
   * CRC check and repair (src/acars.c:177-234) of a forced text with pn even-parity
   * bytes: the first single-bit table entry equal to the residue wins; the two-bit
   * table is tried only without one, with no parity error and a block under 142 bytes.
   */
  function Repair(txt: seq<bv8>, c0: bv8, c1: bv8, pn: nat, t: Tables): Result<Checked, Reject>
    requires t.WellSized()
  {
    var crc := BlockResidue(txt, c0, c1);
    if crc == Clear then Success(Checked(txt, 0))
    else match FirstMatch(t.oneerr, crc)
      case Some(i) => Tagged(Fix(txt, i / 8, BitMasks[i % 8]), 1)
      case None =>
        if pn == 0 && |txt| < 142 then
          match FirstMatch(t.twoerr, crc)
          case Some(n) => Tagged(Fix(txt, n % PairSpan, PairMask(n / PairSpan)), 2)
          case None => Failure(NoSyndromeMatch)
        else Failure(NoSyndromeMatch)
  }

  /** One block through the whole pipeline: rejected, or its stripped text and `err`. */
  function Validate(txt: seq<bv8>, c0: bv8, c1: bv8, t: Tables): Result<Checked, Reject>
    requires t.WellSized()
  {
    if |txt| < 13 then Failure(TooShort)
    else
      var forced := ForceStart(txt);
      var pn := EvenCount(forced);
      if pn > 1 then Failure(ParityErrors(pn))
      else match Repair(forced, c0, c1, pn, t)
        case Failure(e) => Failure(e)
        case Success(c) =>
          var pn2 := EvenCount(c.txt);
          if pn2 > 0 then Failure(ParityAfterFix(pn2)) else Success(Checked(Stripped(c.txt), c.err))
  }

  /** `fixerr` changes at most the one byte at distance sft from the end. */
  lemma FixTouchesOneByte(txt: seq<bv8>, sft: nat, msk: bv8)
    requires Fix(txt, sft, msk).Success?
    ensures var r := Fix(txt, sft, msk).value;
      forall j :: 0 <= j < |txt| && (sft <= 2 || j != |txt| + 1 - sft) ==> r[j] == txt[j]
  {
  }

  /** Applying the same fix twice gives back the text: the flip is its own inverse. */
  lemma FixTwice(txt: seq<bv8>, sft: nat, msk: bv8)
    requires Fix(txt, sft, msk).Success?
    ensures Fix(Fix(txt, sft, msk).value, sft, msk) == Success(txt)
  {
    if sft > 2 {
      var i := |txt| + 1 - sft;
      XorTwice(txt[i], msk);
      assert txt[i := txt[i] ^ msk][i := txt[i] ^ msk ^ msk] == txt;
    }
  }

  /** A flip of byte p, other than the last, is undone by the fix at distance |txt| + 1 - p. */
  lemma FixUndoesFlip(txt: seq<bv8>, p: nat, msk: bv8)
    requires p < |txt| - 1
    ensures Fix(txt[p := txt[p] ^ msk], |txt| + 1 - p, msk) == Success(txt)
  {
    XorTwice(txt[p], msk);
    assert txt[p := txt[p] ^ msk][p := txt[p] ^ msk ^ msk] == txt;
  }

  /**
   * As written, the index of src/acars.c:89 falls before the text whenever a
   * single-bit table entry at distance `i/8` beyond `len+1` matches: for every block
   * shorter than 240 bytes such entries exist, and `Fix` rejects each of them.
   */
  lemma FixIndexBeforeBlock(txt: seq<bv8>, i: nat, msk: bv8)
    requires 13 <= |txt| && i < OneErrSize && i / 8 > |txt| + 1
    ensures FixIndex(|txt|, i / 8) < 0
    ensures Fix(txt, i / 8, msk) == Failure(FixOutsideBlock)
  {
  }

  /** The shortest block accepted, 13 bytes, and the table entry 160 (distance 20): index -6. */
  lemma FixIndexShortestBlock()
    ensures FixIndex(13, 160 / 8) == -6 && 160 < OneErrSize
  {
  }

  /**
   * `Fix` writes only inside the text: it succeeds exactly when the distance is at
   * most 2 or the index the source computes is in the text, and then flips that byte.
   */
  lemma FixInBlock(txt: seq<bv8>, sft: nat, msk: bv8)
    ensures Fix(txt, sft, msk).Success? <==> sft <= 2 || 0 <= FixIndex(|txt|, sft)
    ensures sft > 2 && 0 <= FixIndex(|txt|, sft) ==>
      FixIndex(|txt|, sft) < |txt| &&
      Fix(txt, sft, msk) == Success(txt[FixIndex(|txt|, sft) := txt[FixIndex(|txt|, sft)] ^ msk])
  {
  }

  lemma XorTwice(b: bv8, m: bv8)
    ensures b ^ m ^ m == b
  {
  }

  /**
   * What an accepted block satisfies: at least 13 bytes, at most one parity error before
   * repair, none after, every byte below 0x80; `err` is 0 exactly when the residue is
   * clear, 1 only on a single-bit table match, and 2 only without one, with no parity
   * error and a block under 142 bytes.
   */
  lemma Accepted(txt: seq<bv8>, c0: bv8, c1: bv8, t: Tables)
    requires t.WellSized() && Validate(txt, c0, c1, t).Success?
    ensures var c := Validate(txt, c0, c1, t).value;
      && |txt| >= 13 && |c.txt| == |txt|
      && (forall i :: 0 <= i < |c.txt| ==> c.txt[i] < 0x80)
      && EvenCount(ForceStart(txt)) <= 1
      && c.err <= 2
      && (c.err == 0 <==> BlockResidue(ForceStart(txt), c0, c1) == Clear)
      && (c.err == 1 ==> FirstMatch(t.oneerr, BlockResidue(ForceStart(txt), c0, c1)).Some?)
      && (c.err == 2 ==> FirstMatch(t.oneerr, BlockResidue(ForceStart(txt), c0, c1)).None?
                         && EvenCount(ForceStart(txt)) == 0 && |txt| < 142)
  {
    var forced := ForceStart(txt);
    var r := Repair(forced, c0, c1, EvenCount(forced), t);
    assert r.Success? && r.value.err <= 2 && |r.value.txt| == |txt|;
  }

  /** The last stage: a repaired text with no parity error is accepted, stripped. */
  lemma AcceptedAfter(txt: seq<bv8>, c0: bv8, c1: bv8, t: Tables, c: Checked)
    requires t.WellSized() && |txt| >= 13 && EvenCount(ForceStart(txt)) <= 1
    requires Repair(ForceStart(txt), c0, c1, EvenCount(ForceStart(txt)), t) == Success(c)
    requires EvenCount(c.txt) == 0
    ensures Validate(txt, c0, c1, t) == Success(Checked(Stripped(c.txt), c.err))
  {
  }

  /** The last stage: a repaired text that still has n parity errors is dropped. */
  lemma RejectedAfter(txt: seq<bv8>, c0: bv8, c1: bv8, t: Tables, c: Checked)
    requires t.WellSized() && |txt| >= 13 && EvenCount(ForceStart(txt)) <= 1
    requires Repair(ForceStart(txt), c0, c1, EvenCount(ForceStart(txt)), t) == Success(c)
    requires EvenCount(c.txt) > 0
    ensures Validate(txt, c0, c1, t) == Failure(ParityAfterFix(EvenCount(c.txt)))
  {
  }

  /** A nonzero residue found at entry i of the single-bit table is fixed at distance i / 8. */
  lemma RepairedByOne(txt: seq<bv8>, c0: bv8, c1: bv8, pn: nat, t: Tables, i: nat)
    requires t.WellSized() && BlockResidue(txt, c0, c1) != Clear
    requires FirstMatch(t.oneerr, BlockResidue(txt, c0, c1)) == Some(i)
    ensures Repair(txt, c0, c1, pn, t) == Tagged(Fix(txt, i / 8, BitMasks[i % 8]), 1)
  {
  }

  /**
   * A nonzero residue missing from the single-bit table and found at entry n of the
   * two-bit table, with no parity error in a block under 142 bytes, is fixed with pair n / 142.
   */
  lemma RepairedByTwo(txt: seq<bv8>, c0: bv8, c1: bv8, t: Tables, n: nat)
    requires t.WellSized() && BlockResidue(txt, c0, c1) != Clear && |txt| < 142
    requires FirstMatch(t.oneerr, BlockResidue(txt, c0, c1)).None?
    requires FirstMatch(t.twoerr, BlockResidue(txt, c0, c1)) == Some(n)
    ensures n / PairSpan < PairCount
    ensures Repair(txt, c0, c1, 0, t) == Tagged(Fix(txt, n % PairSpan, PairMask(n / PairSpan)), 2)
  {
  }

  /** A block is dropped as too short exactly when it has fewer than 13 bytes. */
  lemma RejectedShort(txt: seq<bv8>, c0: bv8, c1: bv8, t: Tables)
    requires t.WellSized()
    ensures Validate(txt, c0, c1, t) == Failure(TooShort) <==> |txt| < 13
  {
  }

  /** The first parity gate drops a block exactly when more than one byte has even parity. */
  lemma RejectedParity(txt: seq<bv8>, c0: bv8, c1: bv8, t: Tables)
    requires t.WellSized() && |txt| >= 13
    ensures Validate(txt, c0, c1, t).Failure? && Validate(txt, c0, c1, t).error.ParityErrors?
      <==> EvenCount(ForceStart(txt)) > 1
  {
    var forced := ForceStart(txt);
    var pn := EvenCount(forced);
    if pn <= 1 {
      var r := Repair(forced, c0, c1, pn, t);
      assert r.Failure? ==> r.error == NoSyndromeMatch || r.error == FixOutsideBlock;
    }
  }

  /**
   * A block is dropped for want of a syndrome exactly when its residue is nonzero, no
   * single-bit entry matches, and the two-bit table is either not tried or has no match.
   */
  lemma RejectedNoMatch(txt: seq<bv8>, c0: bv8, c1: bv8, t: Tables)
    requires t.WellSized()
    ensures Validate(txt, c0, c1, t) == Failure(NoSyndromeMatch) <==>
      && |txt| >= 13
      && var forced := ForceStart(txt);
      && var crc := BlockResidue(forced, c0, c1);
      && EvenCount(forced) <= 1
      && crc != Clear
      && FirstMatch(t.oneerr, crc).None?
      && (EvenCount(forced) != 0 || |txt| >= 142 || FirstMatch(t.twoerr, crc).None?)
  {
  }

  /** Two masks of the table of bit masks share a bit exactly when they are the same mask. */
  lemma MaskAnd(k: nat, j: nat)
    requires k < 8 && j < 8
    ensures (BitMasks[k] & BitMasks[j] != 0) == (k == j)
  {
  }

  /** The bits of the mask of round k: bit k alone. */
  lemma BitsOfMask(k: nat)
    requires k < 8
    ensures forall j :: 0 <= j < 8 ==> Bits(BitMasks[k])[j] == (j == k)
  {
    forall j | 0 <= j < 8
      ensures Bits(BitMasks[k])[j] == (j == k)
    {
      MaskAnd(k, j);
    }
  }

  /** Flipping bit k of a byte flips element k of its bits and nothing else. */
  lemma BitsFlip(b: bv8, k: nat)
    requires k < 8
    ensures Bits(b ^ BitMasks[k]) == Bits(b)[k := !Bits(b)[k]]
  {
    BitsXor(b, BitMasks[k]);
    BitsOfMask(k);
    DiffersFromOne(Bits(b ^ BitMasks[k]), Bits(b), Bits(BitMasks[k]), k);
  }

  /** XORing bit strings with a string set only at k flips element k. */
  lemma DiffersFromOne(u: seq<bool>, s: seq<bool>, t: seq<bool>, k: nat)
    requires Differs(u, s, t) && k < |t|
    requires forall j :: 0 <= j < |t| ==> t[j] == (j == k)
    ensures u == s[k := !s[k]]
  {
  }

  /** Flipping one element changes the number of set bits by one. */
  lemma {:induction false} OnesFlip(s: seq<bool>, k: nat)
    requires k < |s|
    ensures Ones(s[k := !s[k]]) == if s[k] then Ones(s) - 1 else Ones(s) + 1
  {
    var n := |s| - 1;
    if k == n {
      assert s[k := !s[k]][..n] == s[..n];
    } else {
      assert s[k := !s[k]][..n] == s[..n][k := !s[k]];
      OnesFlip(s[..n], k);
    }
  }

  /** A single-bit error always breaks the parity of its byte. */
  lemma FlipBitParity(b: bv8, k: nat)
    requires k < 8
    ensures OddParity(b ^ BitMasks[k]) == !OddParity(b)
  {
    var s := Bits(b);
    BitsFlip(b, k);
    OnesFlip(s, k);
    NeighboursParity(Ones(s), Ones(s[k := !s[k]]));
  }

  /** Counts one apart have opposite parities. */
  lemma NeighboursParity(n: nat, m: nat)
    requires m == n + 1 || n == m + 1
    ensures (m % 2 == 1) == !(n % 2 == 1)
  {
  }

  /** A two-bit error within one byte never shows in its parity. */
  lemma FlipPairParity(b: bv8, q: nat)
    requires q < PairCount
    ensures OddParity(b ^ PairMask(q)) == OddParity(b)
  {
    PairMaskXor(q);
    var k, l := Pair(q).0, Pair(q).1;
    var x := b ^ BitMasks[k];
    FlipBitParity(b, k);
    FlipBitParity(x, l);
    assert b ^ PairMask(q) == x ^ BitMasks[l] by {
      var m1, m2 := BitMasks[k], BitMasks[l];
      assert b ^ (m1 ^ m2) == (b ^ m1) ^ m2;
    }
  }

  /** The two bits of a pair mask are distinct, so their OR is their XOR. */
  lemma PairMaskXor(q: nat)
    requires q < PairCount
    ensures Pair(q).1 < Pair(q).0 < 8
    ensures PairMask(q) == BitMasks[Pair(q).0] ^ BitMasks[Pair(q).1]
  {
    PairValid(q);
    MaskAnd(Pair(q).0, Pair(q).1);
    OrIsXor(BitMasks[Pair(q).0], BitMasks[Pair(q).1]);
  }

  lemma OrIsXor(a: bv8, b: bv8)
    requires a & b == 0
    ensures a | b == a ^ b
  {
  }

  /** Replacing one byte changes the count of even-parity bytes by that byte's contribution. */
  lemma {:induction false} EvenCountUpdate(s: seq<bv8>, p: nat, x: bv8)
    requires p < |s|
    ensures EvenCount(s[p := x]) + (if OddParity(s[p]) then 0 else 1)
         == EvenCount(s) + (if OddParity(x) then 0 else 1)
  {
    var n := |s| - 1;
    if p == n {
      assert s[p := x][..n] == s[..n];
    } else {
      assert s[p := x][..n] == s[..n][p := x];
      EvenCountUpdate(s[..n], p, x);
    }
  }
}
