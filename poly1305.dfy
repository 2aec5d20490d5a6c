/**
  Poly1305 one-time authenticator (`poly1305`) and the tag comparison
  (`poly1305_tagcmp`) of crypto.c, against the definition of section 2.5
  of RFC 8439.

  The accumulator is an unbounded integer reduced modulo 2^130 - 5 after
  every block; crypto.c keeps it in five 26-bit limbs that are only
  partially reduced until the end. Poly1305Limbs models those limbs and
  proves that they compute the tag defined here.
 */
module Poly1305 {
  import opened Bytes

  /** The prime 2^130 - 5. */
  const P: nat := 0x3_ffff_ffff_ffff_ffff_ffff_ffff_ffff_fffb

  const Two128: nat := 0x1_0000_0000_0000_0000_0000_0000_0000_0000

  lemma PIsTwo130Minus5()
    ensures P == 4 * Two128 - 5
  {
  }

  /**
    The clamp of section 2.5 of RFC 8439: bytes 3, 7, 11 and 15 keep their
    low four bits, bytes 4, 8 and 12 lose their low two bits. crypto.c
    applies it while splitting r into limbs (the masks 0x03FFFFFF,
    0x03FFFF03, 0x03FFC0FF, 0x03F03FFF and 0x000FFFFF).
   */
  function Clamp(r: seq<byte>): (c: seq<byte>)
    requires |r| == 16
    ensures |c| == 16
    ensures forall i | 0 <= i < 16 && i % 4 == 3 :: c[i] < 16
    ensures forall i | 0 <= i < 16 && i % 4 == 0 && i > 0 :: c[i] % 4 == 0
  {
    seq(16, i requires 0 <= i < 16 =>
      if i % 4 == 3 then r[i] & 0x0F else if i % 4 == 0 && i > 0 then r[i] & 0xFC else r[i])
  }

  /** Byte i of a clamped r either is kept or keeps only the bits the RFC keeps. */
  lemma ClampByte(r: seq<byte>, i: nat)
    requires |r| == 16 && i < 16
    ensures i % 4 != 3 && (i % 4 != 0 || i == 0) ==> Clamp(r)[i] == r[i]
    ensures Clamp(r)[i] & r[i] == Clamp(r)[i]
  {
  }

  /**
    The number of message bytes taken by the next block: 16, or what is
    left.
   */
  function ChunkLen(n: nat): (k: nat)
    ensures n > 0 ==> 0 < k <= n && k <= 16
  {
    if n < 16 then n else 16
  }

  /**
    The accumulator loop of section 2.5 of RFC 8439: each block, with a
    0x01 byte appended, is read as a little-endian number, added to the
    accumulator, and the sum is multiplied by r modulo P.
   */
  function Accumulate(msg: seq<byte>, r: nat, acc: nat): nat
    decreases |msg|
  {
    if msg == [] then acc
    else
      var k := ChunkLen(|msg|);
      Accumulate(msg[k..], r, Absorb(acc, LeValue(msg[..k] + [1]), r))
  }

  /** One accumulator step: add the block's number, multiply by r, reduce. */
  function Absorb(acc: nat, block: nat, r: nat): (h: nat)
    ensures h < P
  {
    (acc + block) * r % P
  }

  /** A full 16-byte block, as the loop of `poly1305` consumes it. */
  lemma AccumulateFull(m: seq<byte>, r: nat, acc: nat)
    requires |m| >= 16
    ensures Accumulate(m, r, acc) == Accumulate(m[16..], r, Absorb(acc, LeValue(m[..16]) + Two128, r))
  {
    FullBlockValue(m[..16]);
  }

  /** The trailing partial block, padded as `poly1305` pads it in `tag`. */
  lemma AccumulateLast(m: seq<byte>, r: nat, acc: nat)
    requires 0 < |m| < 16
    ensures Accumulate(m, r, acc) == Absorb(acc, LeValue(m + [1] + Zeros(15 - |m|)), r)
  {
    PaddedBlockValue(m);
    assert m[..|m|] == m && m[|m|..] == [];
  }

  /** The Poly1305 tag of `msg` under the 32-byte one-time key (r || s). */
  function Mac(msg: seq<byte>, key: seq<byte>): (tag: seq<byte>)
    requires |key| == 32
    ensures |tag| == 16
    ensures LeValue(tag) == (Accumulate(msg, LeValue(Clamp(key[..16])), 0) + LeValue(key[16..])) % Two128
  {
    var t := LeBytes(Accumulate(msg, LeValue(Clamp(key[..16])), 0) + LeValue(key[16..]), 16);
    LeValueLeBytes(Accumulate(msg, LeValue(Clamp(key[..16])), 0) + LeValue(key[16..]), 16);
    Pow256Of16();
    t
  }

  lemma Pow256Of16()
    ensures Pow256(16) == Two128
  {
    assert Pow256(4) == 0x1_0000_0000 by {
      assert Pow256(1) == 0x100;
      assert Pow256(2) == 0x1_0000;
      assert Pow256(3) == 0x100_0000;
    }
    assert Pow256(8) == 0x1_0000_0000_0000_0000 by {
      assert Pow256(5) == 0x100_0000_0000;
      assert Pow256(6) == 0x1_0000_0000_0000;
      assert Pow256(7) == 0x100_0000_0000_0000;
    }
    assert Pow256(12) == 0x1_0000_0000_0000_0000_0000_0000 by {
      assert Pow256(9) == 0x100_0000_0000_0000_0000;
      assert Pow256(10) == 0x1_0000_0000_0000_0000_0000;
      assert Pow256(11) == 0x100_0000_0000_0000_0000_0000;
    }
    assert Pow256(13) == 0x100_0000_0000_0000_0000_0000_0000;
    assert Pow256(14) == 0x1_0000_0000_0000_0000_0000_0000_0000;
    assert Pow256(15) == 0x100_0000_0000_0000_0000_0000_0000_0000;
  }

  /** The little-endian value of a concatenation. */
  lemma {:induction false} LeValueAppend(a: seq<byte>, b: seq<byte>)
    ensures LeValue(a + b) == LeValue(a) + Pow256(|a|) * LeValue(b)
    decreases |a|
  {
    if a != [] {
      assert (a + b)[1..] == a[1..] + b;
      LeValueAppend(a[1..], b);
      var v, w, q := LeValue(a[1..]), LeValue(b), Pow256(|a| - 1);
      calc {
        LeValue(a + b);
        a[0] as nat + 256 * LeValue(a[1..] + b);
        a[0] as nat + 256 * (v + q * w);
        { MulDistributes(256, v, q * w); }
        a[0] as nat + 256 * v + 256 * (q * w);
        { MulAssociates(256, q, w); }
        a[0] as nat + 256 * v + (256 * q) * w;
        LeValue(a) + Pow256(|a|) * w;
      }
    } else {
      assert a + b == b;
    }
  }

  /** Zero bytes add nothing to a little-endian value. */
  lemma {:induction false} LeValueZeros(n: nat)
    ensures LeValue(Zeros(n)) == 0
  {
    if n > 0 {
      assert Zeros(n)[1..] == Zeros(n - 1);
      LeValueZeros(n - 1);
    }
  }

  /** A little-endian value of n bytes is below 256^n. */
  lemma {:induction false} LeValueBound(s: seq<byte>)
    ensures LeValue(s) < Pow256(|s|)
  {
    if s != [] {
      LeValueBound(s[1..]);
    }
  }

  /** Storing x in n little-endian bytes and reading them back gives x mod 256^n. */
  lemma {:induction false} LeValueLeBytes(x: nat, n: nat)
    ensures LeValue(LeBytes(x, n)) == x % Pow256(n)
  {
    if n > 0 {
      var bytes, rest := LeBytes(x, n), LeBytes(x / 256, n - 1);
      ByteOfValue(x % 256);
      assert bytes[0] as nat == x % 256 && bytes[1..] == rest;
      LeValueLeBytes(x / 256, n - 1);
      var k := Pow256(n - 1);
      assert LeValue(rest) == (x / 256) % k;
      assert LeValue(bytes) == x % 256 + 256 * ((x / 256) % k);
      ModSplit(x, k);
      assert Pow256(n) == 256 * k;
    } else {
      assert x % 1 == 0;
    }
  }

  /** x mod 256k == x mod 256 + 256 * ((x / 256) mod k). */
  lemma ModSplit(x: nat, k: nat)
    requires k > 0
    ensures x % (256 * k) == x % 256 + 256 * ((x / 256) % k)
  {
    var q, r := x / 256, x % 256;
    var q1, r1 := q / k, q % k;
    assert x == 256 * k * q1 + (256 * r1 + r);
    assert 0 <= 256 * r1 + r < 256 * k;
    DivMod(x, 256 * k, q1, 256 * r1 + r);
  }

  /** Division with remainder is unique: x = m q + r with r < m fixes q and r. */
  lemma DivMod(x: nat, m: nat, q: nat, r: nat)
    requires m > 0 && r < m && x == m * q + r
    ensures x / m == q && x % m == r
  {
    var q', r' := x / m, x % m;
    assert m * q' + r' == m * q + r;
    if q' < q {
      MulMonotone(m, q' + 1, q);
      MulDistributes(m, q', 1);
    } else if q < q' {
      MulMonotone(m, q + 1, q');
      MulDistributes(m, q, 1);
    }
  }

  lemma MulDistributes(a: int, b: int, c: int)
    ensures a * (b + c) == a * b + a * c
  {
  }

  lemma MulAssociates(a: int, b: int, c: int)
    ensures a * (b * c) == (a * b) * c
  {
  }

  lemma MulMonotone(m: nat, a: nat, b: nat)
    requires a <= b
    ensures m * a <= m * b
  {
  }

  /** Reading bytes as a number and storing it back gives the bytes. */
  lemma {:induction false} LeBytesLeValue(s: seq<byte>)
    ensures LeBytes(LeValue(s), |s|) == s
  {
    if s != [] {
      LeBytesLeValue(s[1..]);
      assert LeValue(s) % 256 == s[0] as nat;
      ByteOfByte(s[0]);
      assert LeValue(s) / 256 == LeValue(s[1..]);
    }
  }

  /**
    A full 16-byte block with the 2^128 bit added (`h4 += 0x01000000`) is
    the block with 0x01 appended.
   */
  lemma FullBlockValue(block: seq<byte>)
    requires |block| == 16
    ensures LeValue(block) + Two128 == LeValue(block + [1])
  {
    LeValueAppend(block, [1]);
    Pow256Of16();
  }

  /**
    The trailing partial block padded in `tag` (its bytes, 0x01, then zeros
    up to 16) has the value of the block with 0x01 appended.
   */
  lemma PaddedBlockValue(block: seq<byte>)
    requires |block| < 16
    ensures LeValue(block + [1] + Zeros(15 - |block|)) == LeValue(block + [1])
  {
    LeValueZeroPad(block + [1], 15 - |block|);
  }

  /** Zero bytes appended to a little-endian number do not change it. */
  lemma LeValueZeroPad(c: seq<byte>, k: nat)
    ensures LeValue(c + Zeros(k)) == LeValue(c)
  {
    LeValueAppend(c, Zeros(k));
    LeValueZeros(k);
    MulZero(Pow256(|c|), LeValue(Zeros(k)));
  }

  lemma MulZero(a: int, b: int)
    requires b == 0
    ensures a * b == 0
  {
  }

  /** The exclusive-or differences of the first k byte pairs, or'ed together. */
  function Diff(t1: seq<byte>, t2: seq<byte>, k: nat): byte
    requires k <= |t1| && k <= |t2|
  {
    if k == 0 then 0 else Or8(Diff(t1, t2, k - 1), XorByte(t1[k - 1], t2[k - 1]))
  }

  function Or8(a: byte, b: byte): byte
  {
    a | b
  }

  lemma Or8Zero(a: byte, b: byte)
    ensures Or8(a, b) == 0 <==> a == 0 && b == 0
  {
  }

  lemma XorByteZero(a: byte, b: byte)
    ensures XorByte(a, b) == 0 <==> a == b
  {
  }

  /** The combined difference is zero exactly when the first k bytes agree. */
  lemma {:induction false} DiffZero(t1: seq<byte>, t2: seq<byte>, k: nat)
    requires k <= |t1| && k <= |t2|
    ensures Diff(t1, t2, k) == 0 <==> t1[..k] == t2[..k]
  {
    if k > 0 {
      DiffZero(t1, t2, k - 1);
      Or8Zero(Diff(t1, t2, k - 1), XorByte(t1[k - 1], t2[k - 1]));
      XorByteZero(t1[k - 1], t2[k - 1]);
      assert t1[..k] == t1[..k - 1] + [t1[k - 1]];
      assert t2[..k] == t2[..k - 1] + [t2[k - 1]];
      if t1[..k] == t2[..k] {
        assert t1[..k - 1] == t1[..k][..k - 1];
        assert t2[..k - 1] == t2[..k][..k - 1];
      }
    }
  }

  /**
    `poly1305_tagcmp`: all sixteen byte pairs are combined, with no early
    exit, and the result is 0 exactly when the tags are equal.
   */
  method TagCmp(tag1: seq<byte>, tag2: seq<byte>) returns (d: int)
    requires |tag1| == 16 && |tag2| == 16
    ensures d == Diff(tag1, tag2, 16) as int
    ensures 0 <= d < 256
    ensures d == 0 <==> tag1 == tag2
  {
    var acc: byte := 0;
    for i := 0 to 16
      invariant acc == Diff(tag1, tag2, i)
    {
      acc := Or8(acc, XorByte(tag1[i], tag2[i]));
    }
    DiffZero(tag1, tag2, 16);
    assert tag1[..16] == tag1 && tag2[..16] == tag2;
    d := acc as int;
  }
}
