/**
 * The 16-bit cyclic redundancy check of ACARS blocks (src/acars.c:64-81).
 *
 * The register is fed bit by bit, each byte least-significant bit first: the
 * register shifts left, the message bit enters at the bottom, and the generator
 * 0x1021 (x^16 + x^12 + x^5 + 1) is added when the bit shifted out was set.
 * A block is clean when the residue over its text followed by its two CRC bytes
 * is zero.  Every step is XOR-linear, which is what makes syndrome decoding work:
 * the residue of a corrupted block is the residue of its error pattern alone.
 *
 * The 16-bit register is held as its sixteen bits, most significant first:
 * r[0] is bit 0x8000 and r[15] is bit 0x0001.
 */
module Crc {

  type Register = r: seq<bool> | |r| == 16 witness seq(16, _ => false)

  /** The register holding 0. */
  const Clear: Register := [false, false, false, false, false, false, false, false, false, false, false, false, false, false, false, false]

  /** The generator without its x^16 term, 0x1021 (POLY in the source): bits 12, 5 and 0. */
  const Generator: Register := seq(16, j => j == 3 || j == 10 || j == 15)

  /** Bitwise exclusive or of two registers. */
  function Xor(r1: Register, r2: Register): Register
  {
    seq(16, j requires 0 <= j < 16 => r1[j] != r2[j])
  }

  /**
   * One round of the register for one message bit: shift left, the bit enters
   * at the bottom, and the generator is added when the bit shifted out was set.
   */
  function Shift(r: Register, bit: bool): Register
  {
    seq(16, j requires 0 <= j < 16 => (if j < 15 then r[j + 1] else bit) != (r[0] && Generator[j]))
  }

  /** The masks `update_crc` moves across a byte, one per round. */
  const BitMasks: seq<bv8> := [0x01, 0x02, 0x04, 0x08, 0x10, 0x20, 0x40, 0x80]

  /** The eight bits of a byte, least significant first: the order `update_crc` feeds them, and the order they are sent. */
  function Bits(b: bv8): (s: seq<bool>)
    ensures |s| == 8
  {
    seq(8, i requires 0 <= i < 8 => b & BitMasks[i] != 0)
  }

  /** The register after the bits of s, in order. */
  function FeedBits(c: Register, s: seq<bool>): Register
  {
    if s == [] then c else Shift(FeedBits(c, s[..|s| - 1]), s[|s| - 1])
  }

  /** The register after a whole byte. */
  function FeedByte(c: Register, b: bv8): Register
  {
    FeedBits(c, Bits(b))
  }

  /** The register after every byte of s, starting from c. */
  function Residue(c: Register, s: seq<bv8>): Register
  {
    if s == [] then c else FeedByte(Residue(c, s[..|s| - 1]), s[|s| - 1])
  }

  /** n zero bytes. */
  function Zeros(n: nat): (z: seq<bv8>)
    ensures |z| == n && forall i :: 0 <= i < n ==> z[i] == 0
  {
    seq(n, _ => 0)
  }

  /** Doubling a mask of round i gives the mask of round i + 1. */
  lemma MaskStep(i: nat)
    requires i < 7
    ensures BitMasks[i] << 1 == BitMasks[i + 1]
  {
    if i == 0 {
    } else if i == 1 {
    } else if i == 2 {
    } else if i == 3 {
    } else if i == 4 {
    } else if i == 5 {
    } else {
    }
  }

  /**
   * `update_crc` as written: eight rounds under a moving one-bit mask v.  The
   * shift clears the bottom bit and `C + 1` sets it when the masked message bit is set.
   */
  method UpdateCrc(crc: Register, c: bv8) returns (r: Register)
    ensures r == FeedByte(crc, c)
  {
    var v: bv8 := 1;
    var i := 0;
    r := crc;
    while i < 8
      invariant 0 <= i <= 8
      invariant i < 8 ==> v == BitMasks[i]
      invariant r == FeedBits(crc, Bits(c)[..i])
    {
      UpdateRound(crc, c, i, v, r);
      r := Round(r, c, v);
      if i < 7 {
        MaskStep(i);
      }
      v := v << 1;
      i := i + 1;
    }
    assert Bits(c)[..8] == Bits(c);
  }

  /**
   * The body of the loop of `update_crc`: the top bit is saved, the register shifted
   * with the masked message bit entering at the bottom, and the generator added
   * when the saved bit was set.
   */
  method Round(crc: Register, c: bv8, v: bv8) returns (r: Register)
    ensures r == Shift(crc, c & v != 0)
  {
    ShiftRound(crc, c & v != 0);
    var flag := crc[0];
    r := crc[1..] + [c & v != 0];
    if flag {
      r := Xor(r, Generator);
    }
  }

  /** Round i of `update_crc` on the register after rounds 0 to i - 1 feeds bit i. */
  lemma UpdateRound(crc: Register, c: bv8, i: nat, v: bv8, r0: Register)
    requires i < 8 && v == BitMasks[i] && r0 == FeedBits(crc, Bits(c)[..i])
    ensures FeedBits(crc, Bits(c)[..i + 1]) == Shift(r0, c & v != 0)
  {
    assert Bits(c)[..i + 1][..i] == Bits(c)[..i];
    assert FeedBits(crc, Bits(c)[..i + 1]) == Shift(r0, Bits(c)[i]);
    MaskedBit(c, i, v);
  }

  /** The mask of round i selects bit i of the byte. */
  lemma MaskedBit(c: bv8, i: nat, v: bv8)
    requires i < 8 && v == BitMasks[i]
    ensures (c & v != 0) == Bits(c)[i]
  {
  }

  /** A round as `update_crc` performs it: shift, the bit enters at the bottom, then reduce. */
  lemma ShiftRound(r: Register, bit: bool)
    ensures Shift(r, bit) == var r1 := r[1..] + [bit]; if r[0] then Xor(r1, Generator) else r1
  {
  }

  /** One round is linear in the register and the message bit together. */
  lemma ShiftLinear(r1: Register, r2: Register, b1: bool, b2: bool)
    ensures Shift(Xor(r1, r2), b1 != b2) == Xor(Shift(r1, b1), Shift(r2, b2))
  {
  }

  /** u is the position-wise exclusive or of the bit strings s and t. */
  predicate Differs(u: seq<bool>, s: seq<bool>, t: seq<bool>)
  {
    |u| == |s| == |t| && forall i :: 0 <= i < |u| ==> u[i] == (s[i] != t[i])
  }

  /** Feeding bits is linear: the register of the XOR is the XOR of the registers. */
  lemma {:induction false} FeedBitsLinear(c1: Register, c2: Register, u: seq<bool>, s: seq<bool>, t: seq<bool>)
    requires Differs(u, s, t)
    ensures FeedBits(Xor(c1, c2), u) == Xor(FeedBits(c1, s), FeedBits(c2, t))
  {
    if u != [] {
      var n := |u| - 1;
      FeedBitsLinear(c1, c2, u[..n], s[..n], t[..n]);
      ShiftLinear(FeedBits(c1, s[..n]), FeedBits(c2, t[..n]), s[n], t[n]);
    }
  }

  /** A one-bit mask selects the same bit of an XOR as the XOR of the selected bits. */
  lemma MaskXor(b1: bv8, b2: bv8, m: bv8)
    requires m & (m - 1) == 0
    ensures ((b1 ^ b2) & m != 0) == ((b1 & m != 0) != (b2 & m != 0))
  {
  }

  lemma MasksSingle(i: nat)
    requires i < 8
    ensures BitMasks[i] & (BitMasks[i] - 1) == 0
  {
  }

  /** The bits of an XOR of bytes are the XOR of their bits. */
  lemma BitsXor(b1: bv8, b2: bv8)
    ensures Differs(Bits(b1 ^ b2), Bits(b1), Bits(b2))
  {
    forall i | 0 <= i < 8
      ensures Bits(b1 ^ b2)[i] == (Bits(b1)[i] != Bits(b2)[i])
    {
      MasksSingle(i);
      MaskXor(b1, b2, BitMasks[i]);
    }
  }

  /** `update_crc` is linear: the register of the XOR is the XOR of the registers. */
  lemma FeedByteLinear(c1: Register, c2: Register, b1: bv8, b2: bv8)
    ensures FeedByte(Xor(c1, c2), b1 ^ b2) == Xor(FeedByte(c1, b1), FeedByte(c2, b2))
  {
    BitsXor(b1, b2);
    FeedBitsLinear(c1, c2, Bits(b1 ^ b2), Bits(b1), Bits(b2));
  }

  /** u is the byte-wise exclusive or of s and t. */
  predicate XorOf(u: seq<bv8>, s: seq<bv8>, t: seq<bv8>)
  {
    |u| == |s| == |t| && forall i :: 0 <= i < |u| ==> u[i] == s[i] ^ t[i]
  }

  /** The residue is XOR-linear over inputs of equal length. */
  lemma {:induction false} ResidueLinear(c1: Register, c2: Register, u: seq<bv8>, s: seq<bv8>, t: seq<bv8>)
    requires XorOf(u, s, t)
    ensures Residue(Xor(c1, c2), u) == Xor(Residue(c1, s), Residue(c2, t))
  {
    if u != [] {
      var n := |u| - 1;
      ResidueLinear(c1, c2, u[..n], s[..n], t[..n]);
      FeedByteLinear(Residue(c1, s[..n]), Residue(c2, t[..n]), s[n], t[n]);
    }
  }

  /** Feeding s and then t is feeding s + t. */
  lemma {:induction false} ResidueAppend(c: Register, s: seq<bv8>, t: seq<bv8>)
    ensures Residue(c, s + t) == Residue(Residue(c, s), t)
  {
    if t == [] {
      assert s + t == s;
    } else {
      var n := |t| - 1;
      assert (s + t)[..|s + t| - 1] == s + t[..n];
      ResidueAppend(c, s, t[..n]);
    }
  }

  /** A clear register stays clear over zero bits. */
  lemma {:induction false} ZeroBitsKeepClear(s: seq<bool>)
    requires forall i :: 0 <= i < |s| ==> !s[i]
    ensures FeedBits(Clear, s) == Clear
  {
    if s != [] {
      ZeroBitsKeepClear(s[..|s| - 1]);
    }
  }

  /** Zero bytes keep a zero register at zero. */
  lemma {:induction false} ZerosKeepClear(n: nat)
    ensures Residue(Clear, Zeros(n)) == Clear
  {
    if n > 0 {
      assert Zeros(n)[..n - 1] == Zeros(n - 1);
      ZerosKeepClear(n - 1);
      ZeroBitsKeepClear(Bits(0));
    }
  }

  /** A zero bit keeps a nonzero register nonzero: the generator is odd. */
  lemma ShiftKeepsNonZero(r: Register)
    requires r != Clear
    ensures Shift(r, false) != Clear
  {
    if r[0] {
      assert Shift(r, false)[15];
    } else {
      var j :| 0 <= j < 16 && r[j];
      assert Shift(r, false)[j - 1];
    }
  }

  /** A nonzero register stays nonzero over zero bits. */
  lemma {:induction false} ZeroBitsKeepNonZero(c: Register, s: seq<bool>)
    requires c != Clear
    requires forall i :: 0 <= i < |s| ==> !s[i]
    ensures FeedBits(c, s) != Clear
  {
    if s != [] {
      ZeroBitsKeepNonZero(c, s[..|s| - 1]);
      ShiftKeepsNonZero(FeedBits(c, s[..|s| - 1]));
    }
  }

  /** A nonzero register stays nonzero over zero bytes. */
  lemma {:induction false} NonZeroSurvivesZeros(c: Register, n: nat)
    requires c != Clear
    ensures Residue(c, Zeros(n)) != Clear
  {
    if n > 0 {
      assert Zeros(n)[..n - 1] == Zeros(n - 1);
      NonZeroSurvivesZeros(c, n - 1);
      ZeroBitsKeepNonZero(Residue(c, Zeros(n - 1)), Bits(0));
    }
  }

  /** From a clear register, up to fifteen bits only shift in: nothing is reduced. */
  lemma {:induction false} FewBitsShiftIn(s: seq<bool>)
    requires |s| <= 15
    ensures FeedBits(Clear, s) == seq(16 - |s|, _ => false) + s
  {
    if s != [] {
      var n := |s| - 1;
      FewBitsShiftIn(s[..n]);
      assert s[..n] + [s[n]] == s;
    }
  }

  /** A byte none of whose bits is set is zero. */
  lemma NoBitsZero(b: bv8)
    requires forall i :: 0 <= i < 8 ==> !Bits(b)[i]
    ensures b == 0
  {
    assert !Bits(b)[0] && !Bits(b)[1] && !Bits(b)[2] && !Bits(b)[3];
    assert !Bits(b)[4] && !Bits(b)[5] && !Bits(b)[6] && !Bits(b)[7];
    assert b & BitMasks[0] == 0 && b & BitMasks[1] == 0 && b & BitMasks[2] == 0 && b & BitMasks[3] == 0;
    assert b & BitMasks[4] == 0 && b & BitMasks[5] == 0 && b & BitMasks[6] == 0 && b & BitMasks[7] == 0;
  }

  /** A nonzero byte fed into a clear register leaves it nonzero. */
  lemma FeedNonZeroByte(b: bv8)
    requires b != 0
    ensures FeedByte(Clear, b) != Clear
  {
    SomeBitSet(b);
    var i :| 0 <= i < 8 && Bits(b)[i];
    SetBitShowsIn(Bits(b), i);
  }

  /** A nonzero byte has a set bit. */
  lemma SomeBitSet(b: bv8)
    requires b != 0
    ensures exists i :: 0 <= i < 8 && Bits(b)[i]
  {
    if forall i :: 0 <= i < 8 ==> !Bits(b)[i] {
      NoBitsZero(b);
    }
  }

  /** A set bit among eight fed into a clear register leaves it nonzero. */
  lemma SetBitShowsIn(s: seq<bool>, i: nat)
    requires |s| == 8 && i < 8 && s[i]
    ensures FeedBits(Clear, s) != Clear
  {
    FewBitsShiftIn(s);
    assert FeedBits(Clear, s)[8 + i] == s[i];
  }

  /**
   * The residue of a pattern whose only nonzero byte is m, followed by d zero bytes:
   * the value a syndrome table holds for an error m at distance d from the end.
   */
  function Syndrome(d: nat, m: bv8): Register
  {
    Residue(FeedByte(Clear, m), Zeros(d))
  }

  /** A nonzero error pattern never has a zero syndrome, so a corrupted block never passes. */
  lemma SyndromeNonZero(d: nat, m: bv8)
    requires m != 0
    ensures Syndrome(d, m) != Clear
  {
    FeedNonZeroByte(m);
    NonZeroSurvivesZeros(FeedByte(Clear, m), d);
  }

  /** Leading zero bytes do not change the residue of an error pattern. */
  lemma ErrorPatternResidue(p: nat, m: bv8, d: nat)
    ensures Residue(Clear, Zeros(p) + [m] + Zeros(d)) == Syndrome(d, m)
  {
    ZerosKeepClear(p);
    ResidueAppend(Clear, Zeros(p) + [m], Zeros(d));
    assert (Zeros(p) + [m])[..p] == Zeros(p);
  }

  /**
   * The residue of a clean sequence with byte p XORed by m is the syndrome of the error
   * alone: it depends on m and on the distance of p from the end, never on the content.
   */
  lemma FlipResidue(s: seq<bv8>, p: nat, m: bv8)
    requires Residue(Clear, s) == Clear
    requires p < |s|
    ensures Residue(Clear, s[p := s[p] ^ m]) == Syndrome(|s| - 1 - p, m)
  {
    var e := Zeros(p) + [m] + Zeros(|s| - 1 - p);
    FlipIsXor(s, p, m);
    ResidueLinear(Clear, Clear, s[p := s[p] ^ m], s, e);
    ErrorPatternResidue(p, m, |s| - 1 - p);
    assert Xor(Clear, Clear) == Clear;
    assert Xor(Clear, Syndrome(|s| - 1 - p, m)) == Syndrome(|s| - 1 - p, m);
  }

  /** XORing m into byte p is XORing in the error pattern with m at p and zeros elsewhere. */
  lemma FlipIsXor(s: seq<bv8>, p: nat, m: bv8)
    requires p < |s|
    ensures XorOf(s[p := s[p] ^ m], s, Zeros(p) + [m] + Zeros(|s| - 1 - p))
  {
    var e := Zeros(p) + [m] + Zeros(|s| - 1 - p);
    forall i | 0 <= i < |s|
      ensures s[p := s[p] ^ m][i] == s[i] ^ e[i]
    {
      if i != p {
        assert e[i] == 0;
      }
    }
  }
}
