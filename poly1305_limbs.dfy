/**
  crypto.c's `poly1305`: the accumulator h and the clamped r are kept in
  five 26-bit limbs (h0 + h1 2^26 + h2 2^52 + h3 2^78 + h4 2^104), the
  limbs in unsigned 32-bit words and their products in unsigned 64-bit
  words. The model computes on unbounded numbers and proves (PolyBlockFits,
  ReduceFits, PackFits) that every intermediate stays below the width of its C type,
  so that no wrap-around takes place; where the C code truncates on purpose
  (the `(uint32_t)` cast of the carry, the `<<` of the final packing, the
  STORE32_LE of a 64-bit sum) the truncation is written out. The method
  Poly1305Tag is proved to return the RFC 8439 tag Poly1305.Mac.
 */
module Poly1305Limbs {
  import opened Bytes
  import opened Poly1305

  /** 2^26, the radix of the limbs. */
  const X: nat := 0x400_0000
  const Two32: nat := 0x1_0000_0000
  const Two64: nat := 0x1_0000_0000_0000_0000

  /** `0x03FFFFFF`, the mask of one limb. */
  const LIMB_MASK: nat := 0x03FF_FFFF

  /** `0x01000000`: the 2^128 bit of a full block, as added to h4. */
  const HIBIT: nat := 0x0100_0000

  function Pow2(k: nat): (p: nat)
    ensures p > 0
  {
    if k == 0 then 1 else 2 * Pow2(k - 1)
  }

  /** C's `&` on unsigned operands, bit by bit from the least significant one. */
  function And(x: nat, y: nat): (z: nat)
    ensures z <= y
    decreases x
  {
    if x == 0 || y == 0 then 0
    else 2 * And(x / 2, y / 2) + (if x % 2 == 1 && y % 2 == 1 then 1 else 0)
  }

  /** One bit of And, whatever the operands. */
  lemma AndStep(x: nat, y: nat)
    ensures And(x, y) == 2 * And(x / 2, y / 2) + (if x % 2 == 1 && y % 2 == 1 then 1 else 0)
  {
    if x == 0 {
      assert And(x / 2, y / 2) == 0;
    } else if y == 0 {
      assert And(x / 2, y / 2) == 0;
    }
  }

  /** x % (2 m) and x / (2 m) in terms of x / 2. */
  lemma HalfDivMod(x: nat, m: nat)
    requires m > 0
    ensures x % (2 * m) == 2 * ((x / 2) % m) + x % 2
    ensures x / (2 * m) == (x / 2) / m
  {
    var h := x / 2;
    assert x == 2 * h + x % 2;
    assert h == m * (h / m) + h % m;
    MulAssociates(2, m, h / m);
    assert x == (2 * m) * (h / m) + (2 * (h % m) + x % 2);
    DivMod(x, 2 * m, h / m, 2 * (h % m) + x % 2);
  }

  /** Anding with 2^k - 1 keeps the low k bits. */
  lemma {:induction false} AndLow(x: nat, k: nat)
    ensures And(x, Pow2(k) - 1) == x % Pow2(k)
  {
    if k > 0 {
      var y := Pow2(k) - 1;
      AndStep(x, y);
      assert y / 2 == Pow2(k - 1) - 1 && y % 2 == 1;
      AndLow(x / 2, k - 1);
      HalfDivMod(x, Pow2(k - 1));
    }
  }

  /** One bit of And, with the halves and low bits of the operands given. */
  lemma AndStepWith(x: nat, y: nat, hx: nat, hy: nat, lx: nat, ly: nat)
    requires lx < 2 && ly < 2 && x == 2 * hx + lx && y == 2 * hy + ly
    ensures And(x, y) == 2 * And(hx, hy) + (if lx == 1 && ly == 1 then 1 else 0)
  {
    DivMod(x, 2, hx, lx);
    DivMod(y, 2, hy, ly);
    AndStep(x, y);
  }

  /**
    A mask a + 2^k b with a < 2^k acts on the low k bits (r) and on the
    rest (q) separately.
   */
  lemma {:induction false} AndSplit(x: nat, a: nat, b: nat, k: nat, q: nat, r: nat)
    requires a < Pow2(k) && r < Pow2(k) && x == Pow2(k) * q + r
    ensures And(x, a + Pow2(k) * b) == And(r, a) + Pow2(k) * And(q, b)
    decreases k
  {
    if k == 0 {
      AndSplitBase(x, a, b, q, r);
    } else {
      var m, p := Pow2(k), Pow2(k - 1);
      var x', y' := p * q + r / 2, a / 2 + p * b;
      HalveSplit(x, a, b, m, p, q, r);
      AndSplit(x', a / 2, b, k - 1, q, r / 2);
      var bit := if r % 2 == 1 && a % 2 == 1 then 1 else 0;
      AndStepWith(x, a + Pow2(k) * b, x', y', r % 2, a % 2);
      AndStepWith(r, a, r / 2, a / 2, r % 2, a % 2);
      BitCombine(And(x, a + Pow2(k) * b), And(r, a), And(r / 2, a / 2), And(q, b), And(x', y'), k, bit);
    }
  }

  lemma AndSplitBase(x: nat, a: nat, b: nat, q: nat, r: nat)
    requires a < Pow2(0) && r < Pow2(0) && x == Pow2(0) * q + r
    ensures And(x, a + Pow2(0) * b) == And(r, a) + Pow2(0) * And(q, b)
  {
    assert a == 0 && r == 0 && x == q && a + Pow2(0) * b == b;
    assert And(r, a) == 0;
  }

  /** Halving x = m q + r and the mask a + m b, for m = 2p. */
  lemma HalveSplit(x: nat, a: nat, b: nat, m: nat, p: nat, q: nat, r: nat)
    requires m == 2 * p && x == m * q + r
    ensures a + m * b == 2 * (a / 2 + p * b) + a % 2
    ensures x == 2 * (p * q + r / 2) + r % 2
  {
    MulAssociates(2, p, b);
    MulAssociates(2, p, q);
  }

  lemma BitCombine(whole: int, low: int, lowHalf: int, high: int, mid: int, k: nat, bit: int)
    requires k > 0 && whole == 2 * mid + bit && mid == lowHalf + Pow2(k - 1) * high && low == 2 * lowHalf + bit
    ensures whole == low + Pow2(k) * high
  {
    var p := Pow2(k - 1);
    assert Pow2(k) == 2 * p;
  }

  lemma Pow2Values()
    ensures Pow2(2) == 4 && Pow2(8) == 256 && Pow2(14) == 0x4000 && Pow2(18) == 0x4_0000
    ensures Pow2(20) == 0x10_0000 && Pow2(26) == 0x400_0000 && Pow2(6) == 64 && Pow2(12) == 0x1000
  {
    assert Pow2(1) == 2;
    assert Pow2(2) == 4;
    assert Pow2(3) == 8;
    assert Pow2(4) == 16;
    assert Pow2(5) == 32;
    assert Pow2(6) == 64;
    assert Pow2(7) == 128;
    assert Pow2(8) == 256;
    assert Pow2(9) == 512;
    assert Pow2(10) == 1024;
    assert Pow2(11) == 2048;
    assert Pow2(12) == 4096;
    assert Pow2(13) == 8192;
    assert Pow2(14) == 0x4000;
    assert Pow2(15) == 0x8000;
    assert Pow2(16) == 0x1_0000;
    assert Pow2(17) == 0x2_0000;
    assert Pow2(18) == 0x4_0000;
    assert Pow2(19) == 0x8_0000;
    assert Pow2(20) == 0x10_0000;
    assert Pow2(21) == 0x20_0000;
    assert Pow2(22) == 0x40_0000;
    assert Pow2(23) == 0x80_0000;
    assert Pow2(24) == 0x100_0000;
    assert Pow2(25) == 0x200_0000;
  }

  lemma MaskLimb(x: nat)
    ensures And(x, 0x03FF_FFFF) == x % 0x400_0000
  {
    AndLow(x, 26);
    Pow2Values();
  }

  lemma {:induction false} Pow2Le(j: nat, k: nat)
    requires j <= k
    ensures Pow2(j) <= Pow2(k)
    decreases k
  {
    if j < k {
      Pow2Le(j, k - 1);
    }
  }

  /** Masking with two runs of ones: the low `j` bits, and `n` bits from bit `k` up. */
  lemma MaskTwo(x: nat, j: nat, k: nat, n: nat, lo: nat, m: nat, hi: nat, q: nat, r: nat)
    requires lo + 1 == Pow2(j) && m == Pow2(k) && hi + 1 == Pow2(n)
    requires j <= k && r < m && x == m * q + r
    ensures And(x, lo + m * hi) == r % (lo + 1) + m * (q % (hi + 1))
  {
    Pow2Le(j, k);
    AndSplit(x, lo, hi, k, q, r);
    AndLow(r, j);
    AndLow(q, n);
  }

  lemma ModMod(x: nat, a: nat, b: nat)
    requires a > 0 && b > 0
    ensures x % (a * b) % a == x % a
  {
    var r := x % (a * b);
    Regroup(x, a, b, x / (a * b), r / a, r % a);
    DivMod(x, a, b * (x / (a * b)) + r / a, r % a);
  }

  lemma Regroup(x: nat, a: nat, b: nat, q: nat, t: nat, u: nat)
    requires x == (a * b) * q + (a * t + u)
    ensures x == a * (b * q + t) + u
  {
    MulAssociates(a, b, q);
    MulDistributes(a, b * q, t);
  }

  lemma MaskR1(x: nat)
    ensures And(x, 0x03FF_FF03) == x % 4 + 256 * (x / 256 % 0x4_0000)
  {
    Pow2Values();
    MaskTwo(x, 2, 8, 18, 3, 256, 0x3_FFFF, x / 256, x % 256);
    ModMod(x, 4, 64);
  }

  lemma MaskR2(x: nat)
    ensures And(x, 0x03FF_C0FF) == x % 256 + 0x4000 * (x / 0x4000 % 0x1000)
  {
    Pow2Values();
    MaskTwo(x, 8, 14, 12, 0xFF, 0x4000, 0xFFF, x / 0x4000, x % 0x4000);
    ModMod(x, 256, 64);
  }

  lemma MaskR3(x: nat)
    ensures And(x, 0x03F0_3FFF) == x % 0x4000 + 0x10_0000 * (x / 0x10_0000 % 64)
  {
    Pow2Values();
    MaskTwo(x, 14, 20, 6, 0x3FFF, 0x10_0000, 63, x / 0x10_0000, x % 0x10_0000);
    ModMod(x, 0x4000, 64);
  }

  lemma MaskR4(x: nat)
    ensures And(x, 0x000F_FFFF) == x % 0x10_0000
  {
    AndLow(x, 20);
    Pow2Values();
  }
  /** Four bytes (as numbers) read little-endian. */
  function Word(a0: nat, a1: nat, a2: nat, a3: nat): nat
  {
    a0 + 256 * (a1 + 256 * (a2 + 256 * a3))
  }

  /*
    The limbs of a block: byte offsets 0, 3, 6, 9 and 12, shifted right by
    0, 2, 4, 6 and 8 bits and cut to 26 bits, pick up consecutive 26-bit
    pieces of the 128-bit number.
   */

  lemma Limb0(a0: nat, a1: nat, a2: nat, a3: nat)
    requires a0 < 256 && a1 < 256 && a2 < 256 && a3 < 256
    ensures Word(a0, a1, a2, a3) % X == a0 + 256 * a1 + 0x1_0000 * a2 + 0x100_0000 * (a3 % 4)
  {
    DivMod(Word(a0, a1, a2, a3), X, a3 / 4, a0 + 256 * a1 + 0x1_0000 * a2 + 0x100_0000 * (a3 % 4));
  }

  lemma Limb1(a3: nat, a4: nat, a5: nat, a6: nat)
    requires a3 < 256 && a4 < 256 && a5 < 256 && a6 < 256
    ensures (Word(a3, a4, a5, a6) / 4) % X == a3 / 4 + 64 * a4 + 0x4000 * a5 + 0x40_0000 * (a6 % 16)
  {
    var x := a3 / 4 + 64 * a4 + 0x4000 * a5 + 0x40_0000 * a6;
    DivMod(Word(a3, a4, a5, a6), 4, x, a3 % 4);
    DivMod(x, X, a6 / 16, a3 / 4 + 64 * a4 + 0x4000 * a5 + 0x40_0000 * (a6 % 16));
  }

  lemma Limb2(a6: nat, a7: nat, a8: nat, a9: nat)
    requires a6 < 256 && a7 < 256 && a8 < 256 && a9 < 256
    ensures (Word(a6, a7, a8, a9) / 16) % X == a6 / 16 + 16 * a7 + 0x1000 * a8 + 0x10_0000 * (a9 % 64)
  {
    var x := a6 / 16 + 16 * a7 + 0x1000 * a8 + 0x10_0000 * a9;
    DivMod(Word(a6, a7, a8, a9), 16, x, a6 % 16);
    DivMod(x, X, a9 / 64, a6 / 16 + 16 * a7 + 0x1000 * a8 + 0x10_0000 * (a9 % 64));
  }

  lemma Limb3(a9: nat, a10: nat, a11: nat, a12: nat)
    requires a9 < 256 && a10 < 256 && a11 < 256 && a12 < 256
    ensures (Word(a9, a10, a11, a12) / 64) % X == a9 / 64 + 4 * a10 + 0x400 * a11 + 0x4_0000 * a12
  {
    var x := a9 / 64 + 4 * a10 + 0x400 * a11 + 0x4_0000 * a12;
    DivMod(Word(a9, a10, a11, a12), 64, x, a9 % 64);
    DivMod(x, X, 0, x);
  }

  lemma Limb4(a12: nat, a13: nat, a14: nat, a15: nat)
    requires a12 < 256 && a13 < 256 && a14 < 256 && a15 < 256
    ensures Word(a12, a13, a14, a15) / 256 == a13 + 256 * a14 + 0x1_0000 * a15
  {
    DivMod(Word(a12, a13, a14, a15), 256, a13 + 256 * a14 + 0x1_0000 * a15, a12);
  }

  lemma KeyLimb0(a0: nat, a1: nat, a2: nat, a3: nat)
    requires a0 < 256 && a1 < 256 && a2 < 256 && a3 < 256
    ensures Word(a0, a1, a2, a3) % X == a0 + 256 * a1 + 0x1_0000 * a2 + 0x100_0000 * ((a3 % 16) % 4)
  {
    Limb0(a0, a1, a2, a3);
    DivMod(a3, 4, a3 / 4, a3 % 4);
    DivMod(a3 % 16, 4, (a3 / 4) % 4, a3 % 4);
  }

  lemma KeyLimb1(a3: nat, a4: nat, a5: nat, a6: nat)
    requires a3 < 256 && a4 < 256 && a5 < 256 && a6 < 256
    ensures Word(a3, a4, a5, a6) / 4 % 4 + 256 * (Word(a3, a4, a5, a6) / 4 / 256 % 0x4_0000)
         == (a3 % 16) / 4 + 64 * (a4 - a4 % 4) + 0x4000 * a5 + 0x40_0000 * (a6 % 16)
  {
    var q3, m3, u3, q4, m4, q6, m6 := a3 / 4, a3 % 4, (a3 / 4) % 4, a4 / 4, a4 % 4, a6 / 16, a6 % 16;
    var x := q3 + 64 * a4 + 0x4000 * a5 + 0x40_0000 * a6;
    DivMod(Word(a3, a4, a5, a6), 4, x, m3);
    DivMod(x, 4, (a3 / 16) + 16 * a4 + 0x1000 * a5 + 0x10_0000 * a6, u3);
    DivMod(x, 256, q4 + 64 * a5 + 0x4000 * a6, q3 + 64 * m4);
    DivMod(q4 + 64 * a5 + 0x4000 * a6, 0x4_0000, q6, q4 + 64 * a5 + 0x4000 * m6);
    DivMod(a3 % 16, 4, u3, m3);
  }

  lemma KeyLimb2(a6: nat, a7: nat, a8: nat, a9: nat)
    requires a6 < 256 && a7 < 256 && a8 < 256 && a9 < 256
    ensures Word(a6, a7, a8, a9) / 16 % 256 + 0x4000 * (Word(a6, a7, a8, a9) / 16 / 0x4000 % 0x1000)
         == a6 / 16 + 16 * (a7 % 16) + 0x1000 * (a8 - a8 % 4) + 0x10_0000 * (a9 % 64)
  {
    var x := a6 / 16 + 16 * a7 + 0x1000 * a8 + 0x10_0000 * a9;
    DivMod(Word(a6, a7, a8, a9), 16, x, a6 % 16);
    DivMod(x, 256, a7 / 16 + 16 * a8 + 0x1000 * a9, a6 / 16 + 16 * (a7 % 16));
    DivMod(x, 0x4000, a8 / 4 + 64 * a9, a6 / 16 + 16 * a7 + 0x1000 * (a8 % 4));
    DivMod(a8 / 4 + 64 * a9, 0x1000, a9 / 64, a8 / 4 + 64 * (a9 % 64));
    DivMod(a8, 4, a8 / 4, a8 % 4);
  }

  lemma KeyLimb3(a9: nat, a10: nat, a11: nat, a12: nat)
    requires a9 < 256 && a10 < 256 && a11 < 256 && a12 < 256
    ensures Word(a9, a10, a11, a12) / 64 % 0x4000 + 0x10_0000 * (Word(a9, a10, a11, a12) / 64 / 0x10_0000 % 64)
         == a9 / 64 + 4 * a10 + 0x400 * (a11 % 16) + 0x4_0000 * (a12 - a12 % 4)
  {
    var x := a9 / 64 + 4 * a10 + 0x400 * a11 + 0x4_0000 * a12;
    DivMod(Word(a9, a10, a11, a12), 64, x, a9 % 64);
    DivMod(x, 0x4000, a11 / 16 + 16 * a12, a9 / 64 + 4 * a10 + 0x400 * (a11 % 16));
    DivMod(x, 0x10_0000, a12 / 4, a9 / 64 + 4 * a10 + 0x400 * a11 + 0x4_0000 * (a12 % 4));
    DivMod(a12 / 4, 64, 0, a12 / 4);
    DivMod(a12, 4, a12 / 4, a12 % 4);
  }

  lemma KeyLimb4(a12: nat, a13: nat, a14: nat, a15: nat)
    requires a12 < 256 && a13 < 256 && a14 < 256 && a15 < 256
    ensures Word(a12, a13, a14, a15) / 256 % 0x10_0000 == a13 + 256 * a14 + 0x1_0000 * (a15 % 16)
  {
    Limb4(a12, a13, a14, a15);
    DivMod(a13 + 256 * a14 + 0x1_0000 * a15, 0x10_0000, a15 / 16, a13 + 256 * a14 + 0x1_0000 * (a15 % 16));
  }

  /** LOAD32_LE(s + o): four bytes read little-endian, as a number. */
  function Le32(s: seq<byte>, o: nat): nat
    requires o + 4 <= |s|
  {
    Word(s[o] as nat, s[o + 1] as nat, s[o + 2] as nat, s[o + 3] as nat)
  }

  lemma LeValue4(s: seq<byte>, o: nat)
    requires o + 4 <= |s|
    ensures LeValue(s[o..o + 4]) == Le32(s, o)
  {
    var t := s[o..o + 4];
    assert LeValue(t[3..]) == t[3] as nat by {
      assert t[3..][1..] == [];
    }
    assert LeValue(t[2..]) == t[2] as nat + 256 * LeValue(t[3..]) by {
      assert t[2..][1..] == t[3..];
    }
    assert LeValue(t[1..]) == t[1] as nat + 256 * LeValue(t[2..]) by {
      assert t[1..][1..] == t[2..];
    }
  }

  lemma Pow256Of4()
    ensures Pow256(4) == Two32
  {
    assert Pow256(2) == 0x1_0000;
  }

  /** The first 16 bytes of s as four 32-bit words, little-endian. */
  lemma LeValue16(s: seq<byte>)
    requires |s| >= 16
    ensures LeValue(s[..16]) == Le32(s, 0) + 0x1_0000_0000 * (Le32(s, 4) + 0x1_0000_0000 * (Le32(s, 8) + 0x1_0000_0000 * Le32(s, 12)))
  {
    Pow256Of4();
    assert s[..16] == s[0..4] + s[4..16];
    assert s[4..16] == s[4..8] + s[8..16];
    assert s[8..16] == s[8..12] + s[12..16];
    LeValueAppend(s[0..4], s[4..16]);
    LeValueAppend(s[4..8], s[8..16]);
    LeValueAppend(s[8..12], s[12..16]);
    LeValue4(s, 0);
    LeValue4(s, 4);
    LeValue4(s, 8);
    LeValue4(s, 12);
  }

  /** Five limbs of 26 bits (the top one may hold more). */
  datatype Limbs = Limbs(l0: nat, l1: nat, l2: nat, l3: nat, l4: nat)

  /** The number the limbs stand for. */
  function Value(h: Limbs): nat
  {
    h.l0 + X * (h.l1 + X * (h.l2 + X * (h.l3 + X * h.l4)))
  }

  /** The limbs of a 16-byte block as the loop reads them (without the 2^128 bit). */
  function BlockLimbs(b: seq<byte>): Limbs
    requires |b| >= 16
  {
    Limbs(And(Le32(b, 0), LIMB_MASK), And(Le32(b, 3) / 4, LIMB_MASK), And(Le32(b, 6) / 16, LIMB_MASK),
          And(Le32(b, 9) / 64, LIMB_MASK), Le32(b, 12) / 256)
  }

  /** The 26-bit pieces of sixteen bytes add up to their little-endian value. */
  lemma PiecesValue(l: Limbs, a0: nat, a1: nat, a2: nat, a3: nat, a4: nat, a5: nat, a6: nat, a7: nat,
                    a8: nat, a9: nat, a10: nat, a11: nat, a12: nat, a13: nat, a14: nat, a15: nat)
    requires l.l0 == a0 + 256 * a1 + 0x1_0000 * a2 + 0x100_0000 * (a3 % 4)
    requires l.l1 == a3 / 4 + 64 * a4 + 0x4000 * a5 + 0x40_0000 * (a6 % 16)
    requires l.l2 == a6 / 16 + 16 * a7 + 0x1000 * a8 + 0x10_0000 * (a9 % 64)
    requires l.l3 == a9 / 64 + 4 * a10 + 0x400 * a11 + 0x4_0000 * a12
    requires l.l4 == a13 + 256 * a14 + 0x1_0000 * a15
    ensures Value(l) == Word(a0, a1, a2, a3) + 0x1_0000_0000 * (Word(a4, a5, a6, a7)
      + 0x1_0000_0000 * (Word(a8, a9, a10, a11) + 0x1_0000_0000 * Word(a12, a13, a14, a15)))
  {
  }

  lemma BlockLimb0(b: seq<byte>)
    requires |b| >= 16
    ensures BlockLimbs(b).l0 == b[0] as nat + 256 * b[1] as nat + 0x1_0000 * b[2] as nat + 0x100_0000 * (b[3] as nat % 4)
  {
    MaskLimb(Le32(b, 0));
    Limb0(b[0] as nat, b[1] as nat, b[2] as nat, b[3] as nat);
  }

  lemma BlockLimb1(b: seq<byte>)
    requires |b| >= 16
    ensures BlockLimbs(b).l1 == b[3] as nat / 4 + 64 * b[4] as nat + 0x4000 * b[5] as nat + 0x40_0000 * (b[6] as nat % 16)
  {
    MaskLimb(Le32(b, 3) / 4);
    Limb1(b[3] as nat, b[4] as nat, b[5] as nat, b[6] as nat);
  }

  lemma BlockLimb2(b: seq<byte>)
    requires |b| >= 16
    ensures BlockLimbs(b).l2 == b[6] as nat / 16 + 16 * b[7] as nat + 0x1000 * b[8] as nat + 0x10_0000 * (b[9] as nat % 64)
  {
    MaskLimb(Le32(b, 6) / 16);
    Limb2(b[6] as nat, b[7] as nat, b[8] as nat, b[9] as nat);
  }

  lemma BlockLimb3(b: seq<byte>)
    requires |b| >= 16
    ensures BlockLimbs(b).l3 == b[9] as nat / 64 + 4 * b[10] as nat + 0x400 * b[11] as nat + 0x4_0000 * b[12] as nat
  {
    MaskLimb(Le32(b, 9) / 64);
    Limb3(b[9] as nat, b[10] as nat, b[11] as nat, b[12] as nat);
  }

  lemma BlockLimb4(b: seq<byte>)
    requires |b| >= 16
    ensures BlockLimbs(b).l4 == b[13] as nat + 256 * b[14] as nat + 0x1_0000 * b[15] as nat
  {
    Limb4(b[12] as nat, b[13] as nat, b[14] as nat, b[15] as nat);
  }

  /**
    The block limbs stand for the block's little-endian value; the first
    four have 26 bits, the fifth 24.
   */
  lemma BlockLimbsValue(b: seq<byte>)
    requires |b| >= 16
    ensures Value(BlockLimbs(b)) == LeValue(b[..16])
    ensures BlockLimbs(b).l0 < X && BlockLimbs(b).l1 < X && BlockLimbs(b).l2 < X && BlockLimbs(b).l3 < X
    ensures BlockLimbs(b).l4 < 0x100_0000
  {
    BlockLimb0(b);
    BlockLimb1(b);
    BlockLimb2(b);
    BlockLimb3(b);
    BlockLimb4(b);
    LeValue16(b);
    PiecesValue(BlockLimbs(b), b[0] as nat, b[1] as nat, b[2] as nat, b[3] as nat, b[4] as nat, b[5] as nat, b[6] as nat, b[7] as nat,
                b[8] as nat, b[9] as nat, b[10] as nat, b[11] as nat, b[12] as nat, b[13] as nat, b[14] as nat, b[15] as nat);
  }

  /** The key limbs r0..r4 and the multiples s1..s4 = 5 r1..5 r4. */
  datatype KeyLimbs = KeyLimbs(r: Limbs, s1: nat, s2: nat, s3: nat, s4: nat)

  /**
    The key split of `poly1305`: each limb is read from bytes 0, 3, 6, 9
    and 12 of the key, shifted and masked; the masks also apply the clamp.
   */
  function RLimbs(key: seq<byte>): KeyLimbs
    requires |key| >= 16
  {
    var r0 := And(Le32(key, 0), 0x03FF_FFFF);
    var r1 := And(Le32(key, 3) / 4, 0x03FF_FF03);
    var r2 := And(Le32(key, 6) / 16, 0x03FF_C0FF);
    var r3 := And(Le32(key, 9) / 64, 0x03F0_3FFF);
    var r4 := And(Le32(key, 12) / 256, 0x000F_FFFF);
    KeyLimbs(Limbs(r0, r1, r2, r3, r4), r1 * 5, r2 * 5, r3 * 5, r4 * 5)
  }

  /** The key limbs as the clamp leaves them, and s_i = 5 r_i. */
  predicate KeyBounded(k: KeyLimbs)
  {
    k.r.l0 < X && k.r.l1 < X && k.r.l2 < X && k.r.l3 < X && k.r.l4 < 0x10_0000 &&
    k.s1 == 5 * k.r.l1 && k.s2 == 5 * k.r.l2 && k.s3 == 5 * k.r.l3 && k.s4 == 5 * k.r.l4
  }

  lemma LowNibble(b: byte)
    ensures (b & 0x0F) as nat == b as nat % 16
  {
    assert b & 0x0F == b % 16;
  }

  lemma HighSix(b: byte)
    ensures (b & 0xFC) as nat == b as nat - b as nat % 4
  {
    assert (b & 0xFC) as nat == 4 * (b / 4) as nat;
    assert (b / 4) as nat == b as nat / 4;
  }

  /** Byte i of the clamped r, as a number. */
  lemma ClampValue(key: seq<byte>, i: nat)
    requires |key| >= 16 && i < 16
    ensures Clamp(key[..16])[i] as nat ==
      if i % 4 == 3 then key[i] as nat % 16 else if i % 4 == 0 && i > 0 then key[i] as nat - key[i] as nat % 4
      else key[i] as nat
  {
    if i % 4 == 3 {
      LowNibble(key[i]);
    } else if i % 4 == 0 && i > 0 {
      HighSix(key[i]);
    }
  }

  lemma RLimb0(key: seq<byte>)
    requires |key| >= 16
    ensures RLimbs(key).r.l0 == BlockLimbs(Clamp(key[..16])).l0
  {
    var c := Clamp(key[..16]);
    MaskLimb(Le32(key, 0));
    KeyLimb0(key[0] as nat, key[1] as nat, key[2] as nat, key[3] as nat);
    BlockLimb0(c);
    ClampValue(key, 0);
    ClampValue(key, 1);
    ClampValue(key, 2);
    ClampValue(key, 3);
  }

  lemma RLimb1(key: seq<byte>)
    requires |key| >= 16
    ensures RLimbs(key).r.l1 == BlockLimbs(Clamp(key[..16])).l1
  {
    var c := Clamp(key[..16]);
    MaskR1(Le32(key, 3) / 4);
    KeyLimb1(key[3] as nat, key[4] as nat, key[5] as nat, key[6] as nat);
    BlockLimb1(c);
    ClampValue(key, 3);
    ClampValue(key, 4);
    ClampValue(key, 5);
    ClampValue(key, 6);
  }

  lemma RLimb2(key: seq<byte>)
    requires |key| >= 16
    ensures RLimbs(key).r.l2 == BlockLimbs(Clamp(key[..16])).l2
  {
    var c := Clamp(key[..16]);
    MaskR2(Le32(key, 6) / 16);
    KeyLimb2(key[6] as nat, key[7] as nat, key[8] as nat, key[9] as nat);
    BlockLimb2(c);
    ClampValue(key, 6);
    ClampValue(key, 7);
    ClampValue(key, 8);
    ClampValue(key, 9);
  }

  lemma RLimb3(key: seq<byte>)
    requires |key| >= 16
    ensures RLimbs(key).r.l3 == BlockLimbs(Clamp(key[..16])).l3
  {
    var c := Clamp(key[..16]);
    MaskR3(Le32(key, 9) / 64);
    KeyLimb3(key[9] as nat, key[10] as nat, key[11] as nat, key[12] as nat);
    BlockLimb3(c);
    ClampValue(key, 9);
    ClampValue(key, 10);
    ClampValue(key, 11);
    ClampValue(key, 12);
  }

  lemma RLimb4(key: seq<byte>)
    requires |key| >= 16
    ensures RLimbs(key).r.l4 == BlockLimbs(Clamp(key[..16])).l4
    ensures RLimbs(key).r.l4 < 0x10_0000
  {
    var c := Clamp(key[..16]);
    MaskR4(Le32(key, 12) / 256);
    KeyLimb4(key[12] as nat, key[13] as nat, key[14] as nat, key[15] as nat);
    BlockLimb4(c);
    ClampValue(key, 13);
    ClampValue(key, 14);
    ClampValue(key, 15);
  }

  /**
    The masks of the key split apply the clamp: the key limbs stand for the
    clamped r of RFC 8439, and keep the clamp's bounds.
   */
  lemma RLimbsClamp(key: seq<byte>)
    requires |key| >= 16
    ensures KeyBounded(RLimbs(key))
    ensures Value(RLimbs(key).r) == LeValue(Clamp(key[..16]))
  {
    var c := Clamp(key[..16]);
    RLimb0(key);
    RLimb1(key);
    RLimb2(key);
    RLimb3(key);
    RLimb4(key);
    BlockLimbsValue(c);
    assert c[..16] == c;
  }

  /** The limb bounds that hold between blocks: h0 may exceed 26 bits, the others do not. */
  predicate Bounded(h: Limbs)
  {
    h.l0 < 0xC000_0000 && h.l1 < X && h.l2 < X && h.l3 < X && h.l4 < X
  }

  /** `h4 += hibit` and the five `h_i += ...` of `process_block`. */
  function AddBlock(h: Limbs, b: seq<byte>, hibit: nat): Limbs
    requires |b| >= 16
  {
    var m := BlockLimbs(b);
    Limbs(h.l0 + m.l0, h.l1 + m.l1, h.l2 + m.l2, h.l3 + m.l3, h.l4 + hibit + m.l4)
  }

  /** `MUL(a,b)`: a 32 by 32 bit product in 64 bits. */
  function Mul(a: nat, b: nat): nat
  {
    a * b
  }

  /** d0..d4: the products of h and r, with 2^130 folded back as 5 through s1..s4. */
  function Multiply(a: Limbs, k: KeyLimbs): Limbs
  {
    var r := k.r;
    Limbs(Mul(a.l0, r.l0) + Mul(a.l1, k.s4) + Mul(a.l2, k.s3) + Mul(a.l3, k.s2) + Mul(a.l4, k.s1),
          Mul(a.l0, r.l1) + Mul(a.l1, r.l0) + Mul(a.l2, k.s4) + Mul(a.l3, k.s3) + Mul(a.l4, k.s2),
          Mul(a.l0, r.l2) + Mul(a.l1, r.l1) + Mul(a.l2, r.l0) + Mul(a.l3, k.s4) + Mul(a.l4, k.s3),
          Mul(a.l0, r.l3) + Mul(a.l1, r.l2) + Mul(a.l2, r.l1) + Mul(a.l3, r.l0) + Mul(a.l4, k.s4),
          Mul(a.l0, r.l4) + Mul(a.l1, r.l3) + Mul(a.l2, r.l2) + Mul(a.l3, r.l1) + Mul(a.l4, r.l0))
  }

  /** d0..d4 after the carries `d_{i+1} += d_i >> 26`. */
  function Carries(d: Limbs): Limbs
  {
    var e1 := d.l1 + d.l0 / X;
    var e2 := d.l2 + e1 / X;
    var e3 := d.l3 + e2 / X;
    Limbs(d.l0, e1, e2, e3, d.l4 + e3 / X)
  }

  /**
    The end of `process_block`: each d keeps 26 bits, and what leaves d4,
    cast to 32 bits, comes back into h0 times 5 (2^130 = 5 modulo P).
   */
  function Carry(d: Limbs): Limbs
  {
    var e := Carries(d);
    Limbs(And(e.l0, LIMB_MASK) + ((e.l4 / X) % Two32) * 5, And(e.l1, LIMB_MASK), And(e.l2, LIMB_MASK),
          And(e.l3, LIMB_MASK), And(e.l4, LIMB_MASK))
  }

  /** One pass through `process_block`. */
  function PolyBlock(h: Limbs, k: KeyLimbs, b: seq<byte>, hibit: nat): Limbs
    requires |b| >= 16
  {
    Carry(Multiply(AddBlock(h, b, hibit), k))
  }

  lemma MulLe(x: nat, y: nat, u: nat, v: nat)
    requires x <= u && y <= v
    ensures x * y <= u * v
  {
    MulMonotone(x, y, v);
    MulMonotone(v, x, u);
  }

  /**
    The products of `process_block` fit in 64 bits; d4 is small enough for
    the carry back into h0 to fit in 32.
   */
  lemma MultiplyFits(a: Limbs, k: KeyLimbs)
    requires a.l0 < 0xC400_0000 && a.l1 < 2 * X && a.l2 < 2 * X && a.l3 < 2 * X && a.l4 < X + 0x200_0000
    requires KeyBounded(k)
    ensures var d := Multiply(a, k);
      d.l0 < 0xA000_0000_0000_0000 && d.l1 < 0xA000_0000_0000_0000 && d.l2 < 0xA000_0000_0000_0000 &&
      d.l3 < 0xA000_0000_0000_0000 && d.l4 < 0x2200_0000 * X
  {
    var r := k.r;
    var A, R, S := 0xFFFF_FFFF, X - 1, 5 * (X - 1);
    MulLe(a.l0, r.l0, A, R); MulLe(a.l1, k.s4, A, S); MulLe(a.l2, k.s3, A, S); MulLe(a.l3, k.s2, A, S); MulLe(a.l4, k.s1, A, S);
    MulLe(a.l0, r.l1, A, R); MulLe(a.l1, r.l0, A, R); MulLe(a.l2, k.s4, A, S); MulLe(a.l3, k.s3, A, S); MulLe(a.l4, k.s2, A, S);
    MulLe(a.l0, r.l2, A, R); MulLe(a.l1, r.l1, A, R); MulLe(a.l2, r.l0, A, R); MulLe(a.l3, k.s4, A, S); MulLe(a.l4, k.s3, A, S);
    MulLe(a.l0, r.l3, A, R); MulLe(a.l1, r.l2, A, R); MulLe(a.l2, r.l1, A, R); MulLe(a.l3, r.l0, A, R); MulLe(a.l4, k.s4, A, S);
    MulLe(a.l0, r.l4, 0xC3FF_FFFF, 0xF_FFFF);
    MulLe(a.l1, r.l3, 2 * X - 1, R); MulLe(a.l2, r.l2, 2 * X - 1, R); MulLe(a.l3, r.l1, 2 * X - 1, R);
    MulLe(a.l4, r.l0, X + 0x1FF_FFFF, R);
  }

  lemma DivBound(x: nat, m: nat, c: nat)
    requires m > 0 && x < m * c
    ensures x / m < c
  {
    if x / m >= c {
      MulMonotone(m, c, x / m);
    }
  }

  /**
    The carried d's fit in 64 bits, the carry out of d4 fits in 32 bits
    (so the cast keeps it), and so does h0 with five times that carry;
    the limbs that come out are Bounded again.
   */
  lemma CarryFits(d: Limbs)
    requires d.l0 < 0xA000_0000_0000_0000 && d.l1 < 0xA000_0000_0000_0000 && d.l2 < 0xA000_0000_0000_0000
    requires d.l3 < 0xA000_0000_0000_0000 && d.l4 < 0x2200_0000 * X
    ensures var e := Carries(d);
      e.l1 < Two64 && e.l2 < Two64 && e.l3 < Two64 && e.l4 < Two64 && e.l4 / X < Two32 &&
      And(e.l0, LIMB_MASK) + (e.l4 / X) * 5 < Two32
    ensures Bounded(Carry(d))
  {
    var e := Carries(d);
    DivBound(e.l0, X, 0x2C_0000_0000);
    DivBound(e.l1, X, 0x2C_0000_0000);
    DivBound(e.l2, X, 0x2C_0000_0000);
    DivBound(e.l3, X, 0x2C_0000_0000);
    DivBound(e.l4, X, 0x2200_0B00);
    MaskLimb(e.l0);
    MaskLimb(e.l1);
    MaskLimb(e.l2);
    MaskLimb(e.l3);
    MaskLimb(e.l4);
  }

  /** Adding a block adds its value, and the 2^128 bit when hibit is set. */
  lemma AddBlockValue(h: Limbs, b: seq<byte>, hibit: nat)
    requires |b| >= 16
    ensures Value(AddBlock(h, b, hibit)) == Value(h) + LeValue(b[..16]) + 0x100_0000_0000_0000_0000_0000_0000 * hibit
  {
    BlockLimbsValue(b);
  }

  /** HIBIT in limb 4 is 2^128. */
  lemma HibitValue()
    ensures 0x100_0000_0000_0000_0000_0000_0000 * HIBIT == Two128
  {
  }

  /**
    The products d0..d4 stand for h r modulo P: the terms of h r at 2^130
    and above come back 5 times smaller, and 2^130 = P + 5.
   */
  lemma MultiplyValue(a: Limbs, k: KeyLimbs, v: nat, r: nat)
    requires KeyBounded(k) && Value(a) == v && Value(k.r) == r
    ensures Value(Multiply(a, k)) % P == v * r % P
  {
    var r := k.r;
    var q := Value(High(a, r));
    MultiplyIdentity(a, k);
    ModMultiple(Value(Multiply(a, k)), q);
  }

  /** The terms of h r at 2^130 and above, divided by 2^130. */
  function High(a: Limbs, r: Limbs): Limbs
  {
    Limbs(Mul(a.l1, r.l4) + Mul(a.l2, r.l3) + Mul(a.l3, r.l2) + Mul(a.l4, r.l1), Mul(a.l2, r.l4) + Mul(a.l3, r.l3) + Mul(a.l4, r.l2),
          Mul(a.l3, r.l4) + Mul(a.l4, r.l3), Mul(a.l4, r.l4), 0)
  }

  lemma MultiplyIdentity(a: Limbs, k: KeyLimbs)
    requires KeyBounded(k)
    ensures Value(a) * Value(k.r) == Value(Multiply(a, k)) + P * Value(High(a, k.r))
  {
    var r := k.r;
    ProductIdentity(a.l0, a.l1, a.l2, a.l3, a.l4, r.l0, r.l1, r.l2, r.l3, r.l4);
  }

  /** Schoolbook product of two five-limb numbers, with 2^130 = P + 5. */
  lemma ProductIdentity(a0: int, a1: int, a2: int, a3: int, a4: int, r0: int, r1: int, r2: int, r3: int, r4: int)
    ensures (a0 + X * (a1 + X * (a2 + X * (a3 + X * a4)))) * (r0 + X * (r1 + X * (r2 + X * (r3 + X * r4)))) ==
      (a0 * r0 + a1 * (r4 * 5) + a2 * (r3 * 5) + a3 * (r2 * 5) + a4 * (r1 * 5))
      + X * ((a0 * r1 + a1 * r0 + a2 * (r4 * 5) + a3 * (r3 * 5) + a4 * (r2 * 5))
      + X * ((a0 * r2 + a1 * r1 + a2 * r0 + a3 * (r4 * 5) + a4 * (r3 * 5))
      + X * ((a0 * r3 + a1 * r2 + a2 * r1 + a3 * r0 + a4 * (r4 * 5))
      + X * (a0 * r4 + a1 * r3 + a2 * r2 + a3 * r1 + a4 * r0))))
      + P * ((a1 * r4 + a2 * r3 + a3 * r2 + a4 * r1) + X * ((a2 * r4 + a3 * r3 + a4 * r2)
      + X * ((a3 * r4 + a4 * r3) + X * (a4 * r4 + X * 0))))
  {
  }

  /** Adding a multiple of P does not change the residue. */
  lemma ModMultiple(x: nat, q: nat)
    ensures (x + P * q) % P == x % P
  {
    MulDistributes(P, x / P, q);
    DivMod(x + P * q, P, x / P + q, x % P);
  }

  /**
    The carry chain keeps the value modulo P: what leaves d4 as c 2^130
    comes back as 5 c, and c 2^130 - 5 c = c P.
   */
  lemma CarryValue(d: Limbs)
    requires Carries(d).l4 / X < Two32
    ensures Value(Carry(d)) + P * (Carries(d).l4 / X) == Value(d)
  {
    var e := Carries(d);
    MaskLimb(e.l0);
    MaskLimb(e.l1);
    MaskLimb(e.l2);
    MaskLimb(e.l3);
    MaskLimb(e.l4);
    var c := e.l4 / X;
    DivMod(c, Two32, 0, c);
    assert Carry(d) == Limbs(e.l0 % X + c * 5, e.l1 % X, e.l2 % X, e.l3 % X, e.l4 % X);
    CarryTelescope(d, e.l0 / X, e.l1 / X, e.l2 / X, e.l3 / X, e.l4 / X, e.l0 % X, e.l1 % X, e.l2 % X, e.l3 % X, e.l4 % X);
  }

  /** The carry chain on plain numbers: quotients q_i and remainders m_i of the carried d's. */
  lemma CarryTelescope(d: Limbs, q0: nat, q1: nat, q2: nat, q3: nat, q4: nat, m0: nat, m1: nat, m2: nat, m3: nat, m4: nat)
    requires d.l0 == X * q0 + m0 && d.l1 + q0 == X * q1 + m1 && d.l2 + q1 == X * q2 + m2
    requires d.l3 + q2 == X * q3 + m3 && d.l4 + q3 == X * q4 + m4
    ensures Value(Limbs(m0 + q4 * 5, m1, m2, m3, m4)) + P * q4 == Value(d)
  {
  }

  /** Reducing the accumulator before adding and multiplying changes nothing modulo P. */
  lemma AbsorbReduced(x: nat, b: nat, r: nat)
    ensures Absorb(x % P, b, r) == (x + b) * r % P
  {
    var q, y := x / P, x % P + b;
    assert x + b == y + P * q;
    ScaleSum(y, q, r);
    ModMultiple(Mul(y, r), Mul(q, r));
  }

  lemma ScaleSum(y: int, q: int, r: int)
    ensures (y + P * q) * r == y * r + P * (q * r)
  {
  }

  /**
    One pass through `process_block` is one accumulator step of RFC 8439
    on the reduced value, and keeps the limbs Bounded.
   */
  lemma PolyBlockAbsorbs(h: Limbs, k: KeyLimbs, b: seq<byte>, hibit: nat, r: nat)
    requires Bounded(h) && KeyBounded(k) && Value(k.r) == r
    requires |b| == 16 && (hibit == HIBIT || hibit == 0)
    ensures Value(PolyBlock(h, k, b, hibit)) % P == Absorb(Value(h) % P, LeValue(b) + (if hibit == HIBIT then Two128 else 0), r)
  {
    var B := LeValue(b) + (if hibit == HIBIT then Two128 else 0);
    CarryKeepsResidue(h, k, b, hibit);
    ProductResidue(h, k, b, hibit, B, r);
  }

  lemma CarryKeepsResidue(h: Limbs, k: KeyLimbs, b: seq<byte>, hibit: nat)
    requires Bounded(h) && KeyBounded(k)
    requires |b| == 16 && hibit <= HIBIT
    ensures Value(PolyBlock(h, k, b, hibit)) % P == Value(Multiply(AddBlock(h, b, hibit), k)) % P
  {
    CarryOutFits(h, k, b, hibit);
    CarryReduces(Multiply(AddBlock(h, b, hibit), k));
  }

  lemma ProductResidue(h: Limbs, k: KeyLimbs, b: seq<byte>, hibit: nat, B: nat, r: nat)
    requires KeyBounded(k) && Value(k.r) == r
    requires |b| == 16 && (hibit == HIBIT || hibit == 0) && B == LeValue(b) + (if hibit == HIBIT then Two128 else 0)
    ensures Value(Multiply(AddBlock(h, b, hibit), k)) % P == Absorb(Value(h) % P, B, r)
  {
    AddBlockSum(h, b, hibit);
    MultiplyValue(AddBlock(h, b, hibit), k, Value(h) + B, r);
    AbsorbReduced(Value(h), B, r);
  }

  lemma AddBlockSum(h: Limbs, b: seq<byte>, hibit: nat)
    requires |b| == 16 && (hibit == HIBIT || hibit == 0)
    ensures Value(AddBlock(h, b, hibit)) == Value(h) + (LeValue(b) + (if hibit == HIBIT then Two128 else 0))
  {
    AddBlockValue(h, b, hibit);
    HibitValue();
    assert b[..16] == b;
  }

  lemma CarryOutFits(h: Limbs, k: KeyLimbs, b: seq<byte>, hibit: nat)
    requires Bounded(h) && KeyBounded(k)
    requires |b| == 16 && hibit <= HIBIT
    ensures Carries(Multiply(AddBlock(h, b, hibit), k)).l4 / X < Two32
  {
    PolyBlockFits(h, k, b, hibit);
  }

  /**
    The sums of `process_block` fit their 32-bit limbs, the products and
    carries their 64-bit words, the cast keeps the carry out of d4, and the
    new limbs are Bounded again.
   */
  lemma PolyBlockFits(h: Limbs, k: KeyLimbs, b: seq<byte>, hibit: nat)
    requires Bounded(h) && KeyBounded(k)
    requires |b| == 16 && hibit <= HIBIT
    ensures var a := AddBlock(h, b, hibit);
      a.l0 < Two32 && a.l1 < Two32 && a.l2 < Two32 && a.l3 < Two32 && a.l4 < Two32
    ensures var d := Multiply(AddBlock(h, b, hibit), k);
      d.l0 < Two64 && d.l1 < Two64 && d.l2 < Two64 && d.l3 < Two64 && d.l4 < Two64
    ensures var e := Carries(Multiply(AddBlock(h, b, hibit), k));
      e.l1 < Two64 && e.l2 < Two64 && e.l3 < Two64 && e.l4 < Two64 && e.l4 / X < Two32 &&
      And(e.l0, LIMB_MASK) + (e.l4 / X) * 5 < Two32
    ensures Bounded(PolyBlock(h, k, b, hibit))
  {
    BlockLimbsValue(b);
    MultiplyFits(AddBlock(h, b, hibit), k);
    CarryFits(Multiply(AddBlock(h, b, hibit), k));
  }

  /** The carry chain keeps the residue modulo P. */
  lemma CarryReduces(d: Limbs)
    requires Carries(d).l4 / X < Two32
    ensures Value(Carry(d)) % P == Value(d) % P
  {
    CarryValue(d);
    ModMultiple(Value(Carry(d)), Carries(d).l4 / X);
  }

  /**
    The final reduction of `poly1305`: h + 5 is carried through the limbs
    (r0..r4 in the C code); if it reaches 2^130, that is if h >= P, h0
    gets 5 more, which modulo 2^128 subtracts P. The other limbs are left
    as they are.
   */
  function Reduce(h: Limbs): Limbs
  {
    var g := Carries(Limbs(h.l0 + 5, h.l1, h.l2, h.l3, h.l4));
    Limbs(h.l0 + (g.l4 / X) * 5, h.l1, h.l2, h.l3, h.l4)
  }

  /** The sums of the final reduction fit in 32 bits. */
  lemma ReduceFits(h: Limbs)
    requires Bounded(h)
    ensures var g := Carries(Limbs(h.l0 + 5, h.l1, h.l2, h.l3, h.l4));
      g.l1 < Two32 && g.l2 < Two32 && g.l3 < Two32 && g.l4 < Two32 && g.l4 / X <= 1
    ensures Reduce(h).l0 < Two32
  {
    var g := Carries(Limbs(h.l0 + 5, h.l1, h.l2, h.l3, h.l4));
    DivBound(h.l0 + 5, X, 0x31);
    DivBound(g.l1, X, 2);
    DivBound(g.l2, X, 2);
    DivBound(g.l3, X, 2);
    DivBound(g.l4, X, 2);
  }

  /**
    After the final reduction h stands, modulo 2^128, for the fully reduced
    accumulator h mod P.
   */
  lemma ReduceValue(h: Limbs)
    requires Bounded(h)
    ensures Value(Reduce(h)) % Two128 == Value(h) % P % Two128
  {
    var g := Carries(Limbs(h.l0 + 5, h.l1, h.l2, h.l3, h.l4));
    ReduceSplit(h);
    ValueBound(h);
    ReduceCases(Value(h), Value(Limbs(g.l0 % X, g.l1 % X, g.l2 % X, g.l3 % X, g.l4 % X)), g.l4 / X, Value(Reduce(h)));
  }

  /** h + 5 = low + 2^130 c, with c the carry out of the top limb; the reduction adds 5 c. */
  lemma ReduceSplit(h: Limbs)
    requires Bounded(h)
    ensures var g := Carries(Limbs(h.l0 + 5, h.l1, h.l2, h.l3, h.l4));
      Value(h) + 5 == Value(Limbs(g.l0 % X, g.l1 % X, g.l2 % X, g.l3 % X, g.l4 % X)) + 4 * Two128 * (g.l4 / X) &&
      Value(Limbs(g.l0 % X, g.l1 % X, g.l2 % X, g.l3 % X, g.l4 % X)) < 4 * Two128 &&
      Value(Reduce(h)) == Value(h) + 5 * (g.l4 / X)
  {
    var d := Limbs(h.l0 + 5, h.l1, h.l2, h.l3, h.l4);
    var g := Carries(d);
    var low := Limbs(g.l0 % X, g.l1 % X, g.l2 % X, g.l3 % X, g.l4 % X);
    var c := g.l4 / X;
    CarryTelescope(d, g.l0 / X, g.l1 / X, g.l2 / X, g.l3 / X, c, low.l0, low.l1, low.l2, low.l3, low.l4);
    FoldTop(low, c, Value(d));
    LimbsBelow(low);
    ReduceAdds(h, c);
  }

  /** The 5 c folded into the bottom limb, taken back out: what is left is low + 2^130 c. */
  lemma FoldTop(m: Limbs, c: nat, v: nat)
    requires Value(Limbs(m.l0 + c * 5, m.l1, m.l2, m.l3, m.l4)) + P * c == v
    ensures v == Value(m) + 4 * Two128 * c
  {
  }

  /** Five limbs of 26 bits are below 2^130. */
  lemma LimbsBelow(m: Limbs)
    requires m.l0 < X && m.l1 < X && m.l2 < X && m.l3 < X && m.l4 < X
    ensures Value(m) < 4 * Two128
  {
    var t3 := m.l3 + X * m.l4;
    MulMonotone(X, m.l4, X - 1);
    var t2 := m.l2 + X * t3;
    MulMonotone(X, t3, X * X - 1);
    var t1 := m.l1 + X * t2;
    MulMonotone(X, t2, X * X * X - 1);
    MulMonotone(X, t1, X * X * X * X - 1);
  }

  /** The reduction adds 5 c to the bottom limb only. */
  lemma ReduceAdds(h: Limbs, c: nat)
    requires c == Carries(Limbs(h.l0 + 5, h.l1, h.l2, h.l3, h.l4)).l4 / X
    ensures Value(Reduce(h)) == Value(h) + 5 * c
  {
    assert Reduce(h) == Limbs(h.l0 + c * 5, h.l1, h.l2, h.l3, h.l4);
  }

  lemma ValueBound(h: Limbs)
    requires Bounded(h)
    ensures Value(h) < 4 * Two128 + Two32
  {
  }

  /** The two cases of the final reduction: h < P, and P <= h < 2 P. */
  lemma ReduceCases(v: nat, low: nat, c: nat, reduced: nat)
    requires v + 5 == low + 4 * Two128 * c && low < 4 * Two128 && v < 4 * Two128 + Two32
    requires reduced == v + 5 * c
    ensures reduced % Two128 == v % P % Two128
  {
    if c == 0 {
      DivMod(v, P, 0, v);
    } else {
      assert c == 1;
      DivMod(v, P, 1, v - P);
      DivMod(v + 5, Two128, 4 + (v - P) / Two128, (v - P) % Two128);
    }
  }

  /** Four 32-bit words, held in the 64-bit d0..d3 of the C code. */
  datatype Words = Words(w0: nat, w1: nat, w2: nat, w3: nat)

  /** w0 + 2^32 w1 + 2^64 w2 + 2^96 w3. */
  function WordsValue(w: Words): nat
  {
    w.w0 + Two32 * (w.w1 + Two32 * (w.w2 + Two32 * w.w3))
  }

  /**
    The limbs regrouped into four 32-bit words, `(h_i >> k) + (h_{i+1} << (26 - k))`:
    each left shift is on 32 bits, so its high bits are lost.
   */
  function Repack(f: Limbs): Words
  {
    Words(f.l0 + (f.l1 * X) % Two32,
          f.l1 / 64 + (f.l2 * 0x10_0000) % Two32,
          f.l2 / 0x1000 + (f.l3 * 0x4000) % Two32,
          f.l3 / 0x4_0000 + (f.l4 * 256) % Two32)
  }

  /** s (the second half of the key) added word by word, each 64-bit sum carrying into the next. */
  function AddKey(w: Words, key: seq<byte>): Words
    requires |key| == 32
  {
    var d0 := Le32(key, 16) + w.w0;
    var d1 := Le32(key, 20) + w.w1 + d0 / Two32;
    var d2 := Le32(key, 24) + w.w2 + d1 / Two32;
    Words(d0, d1, d2, Le32(key, 28) + w.w3 + d2 / Two32)
  }

  /** `STORE32_LE` of each word into the tag: its low 32 bits, little-endian. */
  function Store(d: Words): (tag: seq<byte>)
    ensures |tag| == 16
  {
    LeBytes(d.w0, 4) + LeBytes(d.w1, 4) + LeBytes(d.w2, 4) + LeBytes(d.w3, 4)
  }

  /** The end of `poly1305`: the final reduction, the packing, the addition of s and the stores. */
  function Finish(h: Limbs, key: seq<byte>): (tag: seq<byte>)
    requires |key| == 32
    ensures |tag| == 16
  {
    Store(AddKey(Repack(Reduce(h)), key))
  }

  /** The 64-bit sums of the packing do not overflow. */
  lemma PackFits(h: Limbs, key: seq<byte>)
    requires Bounded(h) && |key| == 32
    ensures var d := AddKey(Repack(Reduce(h)), key);
      d.w0 < Two64 && d.w1 < Two64 && d.w2 < Two64 && d.w3 < Two64
  {
    ReduceFits(h);
    RepackFits(Reduce(h));
    AddKeyFits(Repack(Reduce(h)), key);
  }

  /** Each packed word is a 32-bit shift plus a 32-bit value. */
  lemma RepackFits(f: Limbs)
    requires f.l0 < Two32 && f.l1 < X && f.l2 < X && f.l3 < X
    ensures var w := Repack(f); w.w0 < 2 * Two32 && w.w1 < 2 * Two32 && w.w2 < 2 * Two32 && w.w3 < 2 * Two32
  {
  }

  /** Adding s and the carries to words below 2^33 stays below 2^35. */
  lemma AddKeyFits(w: Words, key: seq<byte>)
    requires |key| == 32
    requires w.w0 < 2 * Two32 && w.w1 < 2 * Two32 && w.w2 < 2 * Two32 && w.w3 < 2 * Two32
    ensures var d := AddKey(w, key); d.w0 < Two64 && d.w1 < Two64 && d.w2 < Two64 && d.w3 < Two64
  {
    var d := AddKey(w, key);
    Le32Bound(key, 16);
    Le32Bound(key, 20);
    Le32Bound(key, 24);
    Le32Bound(key, 28);
    DivBound(d.w0, Two32, 3);
    DivBound(d.w1, Two32, 4);
    DivBound(d.w2, Two32, 4);
  }

  lemma Le32Bound(s: seq<byte>, o: nat)
    requires o + 4 <= |s|
    ensures Le32(s, o) < Two32
  {
  }

  /** A 32-bit left shift by k bits (m = 2^k, n = 2^(32-k)) keeps the low 32 - k bits of v. */
  lemma ShiftLow(v: nat, m: nat, n: nat)
    requires m > 0 && n > 0 && m * n == Two32
    ensures (v * m) % Two32 == m * (v % n)
  {
    var q, r := v / n, v % n;
    assert v * m == Two32 * q + m * r by {
      assert v == n * q + r;
      MulDistributes(m, n * q, r);
      MulAssociates(m, n, q);
    }
    MulMonotone(m, r, n - 1);
    DivMod(v * m, Two32, q, m * r);
  }

  /** The packed words carry the value of the limbs, less what h4 << 8 loses above 2^128. */
  lemma RepackValue(f: Limbs)
    ensures WordsValue(Repack(f)) + Two128 * (f.l4 / 0x100_0000) == Value(f)
  {
    ShiftLow(f.l1, X, 64);
    ShiftLow(f.l2, 0x10_0000, 0x1000);
    ShiftLow(f.l3, 0x4000, 0x4_0000);
    ShiftLow(f.l4, 256, 0x100_0000);
    RepackIdentity(f.l0, f.l1, f.l2, f.l3, f.l4, f.l1 / 64, f.l2 / 0x1000, f.l3 / 0x4_0000, f.l4 / 0x100_0000,
                   f.l1 % 64, f.l2 % 0x1000, f.l3 % 0x4_0000, f.l4 % 0x100_0000);
  }

  /** Regrouping 26-bit limbs into 32-bit words, on plain numbers. */
  lemma RepackIdentity(f0: int, f1: int, f2: int, f3: int, f4: int, a1: int, a2: int, a3: int, a4: int,
                       b1: int, b2: int, b3: int, b4: int)
    requires f1 == 64 * a1 + b1 && f2 == 0x1000 * a2 + b2 && f3 == 0x4_0000 * a3 + b3 && f4 == 0x100_0000 * a4 + b4
    ensures (f0 + X * b1) + Two32 * ((a1 + 0x10_0000 * b2) + Two32 * ((a2 + 0x4000 * b3) + Two32 * (a3 + 256 * b4)))
            + Two128 * a4 == f0 + X * (f1 + X * (f2 + X * (f3 + X * f4)))
  {
  }

  /** The tag's value is that of the four words' low 32 bits. */
  lemma StoreValue(d: Words)
    ensures LeValue(Store(d)) == WordsValue(Words(d.w0 % Two32, d.w1 % Two32, d.w2 % Two32, d.w3 % Two32))
  {
    var a, b, c, e := LeBytes(d.w0, 4), LeBytes(d.w1, 4), LeBytes(d.w2, 4), LeBytes(d.w3, 4);
    AppendAssoc(a, b, c, e);
    assert b + c + e == b + (c + e);
    LeValueAppend(a, b + (c + e));
    LeValueAppend(b, c + e);
    LeValueAppend(c, e);
    Pow256Of4();
    LeValueLeBytes(d.w0, 4);
    LeValueLeBytes(d.w1, 4);
    LeValueLeBytes(d.w2, 4);
    LeValueLeBytes(d.w3, 4);
  }

  /** The carries between the 64-bit sums, on plain numbers: what leaves d3 is a multiple of 2^128. */
  lemma AddTelescope(k0: int, k1: int, k2: int, k3: int, w0: int, w1: int, w2: int, w3: int,
                     q0: int, q1: int, q2: int, q3: int, m0: int, m1: int, m2: int, m3: int)
    requires k0 + w0 == Two32 * q0 + m0 && k1 + w1 + q0 == Two32 * q1 + m1
    requires k2 + w2 + q1 == Two32 * q2 + m2 && k3 + w3 + q2 == Two32 * q3 + m3
    ensures m0 + Two32 * (m1 + Two32 * (m2 + Two32 * m3)) + Two128 * q3
            == (k0 + Two32 * (k1 + Two32 * (k2 + Two32 * k3))) + (w0 + Two32 * (w1 + Two32 * (w2 + Two32 * w3)))
  {
  }

  /** The words of s, as LOAD32_LE reads them, make up its little-endian value. */
  lemma KeyValue(key: seq<byte>)
    requires |key| == 32
    ensures LeValue(key[16..]) == WordsValue(Words(Le32(key, 16), Le32(key, 20), Le32(key, 24), Le32(key, 28)))
  {
    var s := key[16..];
    LeValue16(s);
    assert s[..16] == s;
    assert Le32(s, 0) == Le32(key, 16) && Le32(s, 4) == Le32(key, 20);
    assert Le32(s, 8) == Le32(key, 24) && Le32(s, 12) == Le32(key, 28);
  }

  /** Four 32-bit words are below 2^128. */
  lemma WordsBelow(m: Words)
    requires m.w0 < Two32 && m.w1 < Two32 && m.w2 < Two32 && m.w3 < Two32
    ensures WordsValue(m) < Two128
  {
    var t2 := m.w2 + Two32 * m.w3;
    MulMonotone(Two32, m.w3, Two32 - 1);
    var t1 := m.w1 + Two32 * t2;
    MulMonotone(Two32, t2, Two32 * Two32 - 1);
    MulMonotone(Two32, t1, Two32 * Two32 * Two32 - 1);
  }

  /** The tag: h mod P plus s, modulo 2^128. */
  lemma FinishTag(h: Limbs, key: seq<byte>)
    requires Bounded(h) && |key| == 32
    ensures LeValue(Finish(h, key)) == (Value(h) % P + LeValue(key[16..])) % Two128
  {
    var w := Repack(Reduce(h));
    var d := AddKey(w, key);
    StoreSum(w, key);
    PackedResidue(h);
    FinishCases(LeValue(Store(d)), d.w3 / Two32, LeValue(key[16..]), WordsValue(w), Value(h) % P);
  }

  /** The packed words stand, modulo 2^128, for h mod P. */
  lemma PackedResidue(h: Limbs)
    requires Bounded(h)
    ensures WordsValue(Repack(Reduce(h))) % Two128 == Value(h) % P % Two128
  {
    var f := Reduce(h);
    RepackValue(f);
    ReduceValue(h);
    DropMultiple(WordsValue(Repack(f)), f.l4 / 0x100_0000, Value(f));
  }

  /** Adding a multiple of 2^128 keeps the residue modulo 2^128. */
  lemma DropMultiple(w: nat, a: nat, f: nat)
    requires w + Two128 * a == f
    ensures f % Two128 == w % Two128
  {
    DivMod(f, Two128, w / Two128 + a, w % Two128);
  }

  /** The stored words are the sum of s and the packed words, less the carry out of d3 times 2^128. */
  lemma StoreSum(w: Words, key: seq<byte>)
    requires |key| == 32
    ensures var d := AddKey(w, key);
      LeValue(Store(d)) + Two128 * (d.w3 / Two32) == LeValue(key[16..]) + WordsValue(w) &&
      LeValue(Store(d)) < Two128
  {
    var d := AddKey(w, key);
    var m := Words(d.w0 % Two32, d.w1 % Two32, d.w2 % Two32, d.w3 % Two32);
    var k := Words(Le32(key, 16), Le32(key, 20), Le32(key, 24), Le32(key, 28));
    StoreValue(d);
    AddTelescope(k.w0, k.w1, k.w2, k.w3, w.w0, w.w1, w.w2, w.w3,
                 d.w0 / Two32, d.w1 / Two32, d.w2 / Two32, d.w3 / Two32, m.w0, m.w1, m.w2, m.w3);
    KeyValue(key);
    WordsBelow(m);
  }

  /** The sums modulo 2^128, on plain numbers. */
  lemma FinishCases(s: nat, q: nat, k: nat, w: nat, v: nat)
    requires s + Two128 * q == k + w && w % Two128 == v % Two128 && s < Two128
    ensures s == (v + k) % Two128
  {
    var t := v / Two128 - w / Two128 + q;
    assert v + k == Two128 * t + s;
    DivMod(v + k, Two128, t, s);
  }

  /** Two byte strings of the same length with the same little-endian value are equal. */
  lemma LeValueInjective(t1: seq<byte>, t2: seq<byte>)
    requires |t1| == |t2| && LeValue(t1) == LeValue(t2)
    ensures t1 == t2
  {
    LeBytesLeValue(t1);
    LeBytesLeValue(t2);
  }

  /**
    `poly1305`: the key is split into the limbs of the clamped r, the
    message is absorbed, and the result is reduced, packed and added to s.
    The tag is the Poly1305 tag of section 2.5 of RFC 8439.
   */
  method Poly1305Tag(msg: seq<byte>, key: seq<byte>) returns (tag: seq<byte>)
    requires |key| == 32
    ensures tag == Mac(msg, key)
  {
    var k := RLimbs(key);
    RLimbsClamp(key);
    var h := AbsorbAll(msg, k, LeValue(Clamp(key[..16])));
    tag := Finish(h, key);
    FinishIsMac(h, key, msg);
  }

  /**
    The block loop of `poly1305`: each full block is absorbed with the
    2^128 bit set (`h4 += 1 << 24`), and a partial last block is padded
    with 0x01 and zeros in the tag buffer and absorbed without it. The
    limbs end up holding the accumulator of section 2.5 of RFC 8439,
    modulo P.
   */
  method AbsorbAll(msg: seq<byte>, k: KeyLimbs, ghost r: nat) returns (h: Limbs)
    requires KeyBounded(k) && Value(k.r) == r
    ensures Bounded(h) && Value(h) % P == Accumulate(msg, r, 0)
  {
    h := Limbs(0, 0, 0, 0, 0);
    var i: nat, n: nat := 0, |msg|;
    while n >= 16
      invariant i + n == |msg| && Bounded(h)
      invariant Accumulate(msg[i..], r, Value(h) % P) == Accumulate(msg, r, 0)
    {
      var block := msg[i..i + 16];
      FullBlockStep(h, k, msg[i..], r);
      assert msg[i..][..16] == block && msg[i..][16..] == msg[i + 16..];
      h := PolyBlock(h, k, block, HIBIT);
      i, n := i + 16, n - 16;
    }
    if n > 0 {
      var block := msg[i..] + [1] + Zeros(15 - n);
      LastBlockStep(h, k, msg[i..], r);
      h := PolyBlock(h, k, block, 0);
    } else {
      assert msg[i..] == [];
    }
  }

  /** A full block through `process_block` takes one step of the accumulator loop. */
  lemma FullBlockStep(h: Limbs, k: KeyLimbs, m: seq<byte>, r: nat)
    requires Bounded(h) && KeyBounded(k) && Value(k.r) == r && |m| >= 16
    ensures Bounded(PolyBlock(h, k, m[..16], HIBIT))
    ensures Accumulate(m[16..], r, Value(PolyBlock(h, k, m[..16], HIBIT)) % P) == Accumulate(m, r, Value(h) % P)
  {
    AccumulateFull(m, r, Value(h) % P);
    PolyBlockAbsorbs(h, k, m[..16], HIBIT, r);
    PolyBlockFits(h, k, m[..16], HIBIT);
  }

  /** The padded last block through `process_block` finishes the accumulator loop. */
  lemma LastBlockStep(h: Limbs, k: KeyLimbs, m: seq<byte>, r: nat)
    requires Bounded(h) && KeyBounded(k) && Value(k.r) == r && 0 < |m| < 16
    ensures var b := m + [1] + Zeros(15 - |m|);
      Bounded(PolyBlock(h, k, b, 0)) && Value(PolyBlock(h, k, b, 0)) % P == Accumulate(m, r, Value(h) % P)
  {
    var b := m + [1] + Zeros(15 - |m|);
    AccumulateLast(m, r, Value(h) % P);
    PolyBlockAbsorbs(h, k, b, 0, r);
    PolyBlockFits(h, k, b, 0);
  }

  /** Once the accumulator holds the whole message, the packed tag is the Poly1305 tag. */
  lemma FinishIsMac(h: Limbs, key: seq<byte>, msg: seq<byte>)
    requires Bounded(h) && |key| == 32 && Value(h) % P == Accumulate(msg, LeValue(Clamp(key[..16])), 0)
    ensures Finish(h, key) == Mac(msg, key)
  {
    var f, m := Finish(h, key), Mac(msg, key);
    var a, k := Accumulate(msg, LeValue(Clamp(key[..16])), 0), LeValue(key[16..]);
    FinishTag(h, key);
    assert LeValue(f) == (a + k) % Two128 == LeValue(m);
    LeValueInjective(f, m);
  }
}
