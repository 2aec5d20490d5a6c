/**
  Bytes, words and the load/store macros of crypto.c (LOAD32_LE, LOAD32_BE,
  STORE32_LE, STORE32_BE, STORE64_BE), plus the small sequence helpers that
  the rest of the model shares.
 */
module Bytes {

  /** A C `uint8_t`. */
  type byte = bv8

  datatype Option<+T> = None | Some(value: T)

  /** `n` zero bytes, what `memset(p, 0, n)` leaves behind. */
  function Zeros(n: nat): (z: seq<byte>)
    ensures |z| == n
    ensures forall i | 0 <= i < n :: z[i] == 0
  {
    seq(n, _ => 0)
  }

  /**
    Exclusive or of two bytes. Quantified facts are stated through this
    function rather than through `^` itself, which keeps them cheap to use.
   */
  function XorByte(a: byte, b: byte): byte
  {
    a ^ b
  }

  /**
    32-bit word operations. Code that computes with words goes through these
    (rather than through `+`, `^` and shifts directly), so that relating a
    computation to its specification is a matter of equal terms.
   */
  function Add32(a: bv32, b: bv32): bv32
  {
    a + b
  }

  function Xor32(a: bv32, b: bv32): bv32
  {
    a ^ b
  }

  /** ROL32(x, c) */
  function Rol32(x: bv32, c: nat): bv32
    requires 0 < c < 32
  {
    (x << c) | (x >> (32 - c))
  }

  /** ROR32(x, c) */
  function Ror32(x: bv32, c: nat): bv32
    requires 0 < c < 32
  {
    (x >> c) | (x << (32 - c))
  }

  /** Byte-wise exclusive or of `a` with the first |a| bytes of `b`. */
  function XorBytes(a: seq<byte>, b: seq<byte>): (r: seq<byte>)
    requires |a| <= |b|
    ensures |r| == |a|
    ensures forall i | 0 <= i < |a| :: r[i] == XorByte(a[i], b[i])
  {
    seq(|a|, i requires 0 <= i < |a| => XorByte(a[i], b[i]))
  }

  /** Every byte of `a` exclusive-or'ed with the constant `c` (the HMAC pads). */
  function XorConst(a: seq<byte>, c: byte): (r: seq<byte>)
    ensures |r| == |a|
    ensures forall i | 0 <= i < |a| :: r[i] == XorByte(a[i], c)
  {
    seq(|a|, i requires 0 <= i < |a| => XorByte(a[i], c))
  }

  /** LOAD32_LE(s + i) */
  function Load32Le(s: seq<byte>, i: nat): bv32
    requires i + 4 <= |s|
  {
    (s[i] as bv32) | ((s[i+1] as bv32) << 8) | ((s[i+2] as bv32) << 16) | ((s[i+3] as bv32) << 24)
  }

  /** LOAD32_BE(s + i) */
  function Load32Be(s: seq<byte>, i: nat): bv32
    requires i + 4 <= |s|
  {
    (s[i+3] as bv32) | ((s[i+2] as bv32) << 8) | ((s[i+1] as bv32) << 16) | ((s[i] as bv32) << 24)
  }

  /** The four bytes STORE32_LE writes for `v`. */
  function Store32Le(v: bv32): (r: seq<byte>)
    ensures |r| == 4
  {
    [(v & 0xFF) as bv8, ((v >> 8) & 0xFF) as bv8, ((v >> 16) & 0xFF) as bv8, ((v >> 24) & 0xFF) as bv8]
  }

  /** The four bytes STORE32_BE writes for `v`. */
  function Store32Be(v: bv32): (r: seq<byte>)
    ensures |r| == 4
  {
    [((v >> 24) & 0xFF) as bv8, ((v >> 16) & 0xFF) as bv8, ((v >> 8) & 0xFF) as bv8, (v & 0xFF) as bv8]
  }

  /** The eight bytes STORE64_BE writes for `v`. */
  function Store64Be(v: bv64): (r: seq<byte>)
    ensures |r| == 8
  {
    [((v >> 56) & 0xFF) as bv8, ((v >> 48) & 0xFF) as bv8, ((v >> 40) & 0xFF) as bv8, ((v >> 32) & 0xFF) as bv8,
     ((v >> 24) & 0xFF) as bv8, ((v >> 16) & 0xFF) as bv8, ((v >> 8) & 0xFF) as bv8, (v & 0xFF) as bv8]
  }

  /** Storing a word little-endian and loading it back gives the word. */
  lemma Load32LeStore32Le(v: bv32)
    ensures Load32Le(Store32Le(v), 0) == v
  {
  }

  /** Loading a word little-endian and storing it back gives the four bytes. */
  lemma Store32LeLoad32Le(s: seq<byte>, i: nat)
    requires i + 4 <= |s|
    ensures Store32Le(Load32Le(s, i)) == s[i..i+4]
  {
  }

  /** Storing a word big-endian and loading it back gives the word. */
  lemma Load32BeStore32Be(v: bv32)
    ensures Load32Be(Store32Be(v), 0) == v
  {
  }

  /**
    Add32 is addition of `uint32_t` values: the low 32 bits of the sum
    computed without overflow in 64 bits, the carry out dropped.
   */
  lemma Add32Wraps(a: bv32, b: bv32)
    ensures Add32(a, b) as bv64 == (a as bv64 + b as bv64) & 0xFFFF_FFFF
  {
  }

  /** STORE32_BE writes the bytes of STORE32_LE in the opposite order. */
  lemma Store32BeReversesLe(v: bv32)
    ensures Store32Be(v) == [Store32Le(v)[3], Store32Le(v)[2], Store32Le(v)[1], Store32Le(v)[0]]
  {
  }

  /** LOAD32_BE reads the four bytes in the opposite order from LOAD32_LE. */
  lemma Load32BeReversesLe(s: seq<byte>, i: nat)
    requires i + 4 <= |s|
    ensures Load32Be(s, i) == Load32Le([s[i+3], s[i+2], s[i+1], s[i]], 0)
  {
  }

  /** STORE64_BE writes the high word big-endian, then the low word big-endian. */
  lemma Store64BeWords(v: bv64)
    ensures Store64Be(v) == Store32Be((v >> 32) as bv32) + Store32Be((v & 0xFFFF_FFFF) as bv32)
  {
  }

  /**
    The word-wise exclusive or of chacha20_xor (`STORE32_LE(buf, w ^ LOAD32_LE(buf))`)
    is the byte-wise exclusive or with the little-endian bytes of `w`.
   */
  lemma Store32LeXor(w: bv32, s: seq<byte>, i: nat)
    requires i + 4 <= |s|
    ensures forall k | 0 <= k < 4 :: Store32Le(Xor32(w, Load32Le(s, i)))[k] == XorByte(s[i + k], Store32Le(w)[k])
  {
    forall k | 0 <= k < 4
      ensures Store32Le(Xor32(w, Load32Le(s, i)))[k] == XorByte(s[i + k], Store32Le(w)[k])
    {
      Store32LeXorLane(w, s, i, k);
    }
  }

  /** One byte lane of Store32LeXor; each lane is a separate small bit-vector fact. */
  lemma Store32LeXorLane(w: bv32, s: seq<byte>, i: nat, k: nat)
    requires i + 4 <= |s| && k < 4
    ensures Store32Le(Xor32(w, Load32Le(s, i)))[k] == XorByte(s[i + k], Store32Le(w)[k])
  {
    if k == 0 {
      assert Store32Le(Xor32(w, Load32Le(s, i)))[0] == XorByte(s[i], Store32Le(w)[0]);
    } else if k == 1 {
      assert Store32Le(Xor32(w, Load32Le(s, i)))[1] == XorByte(s[i + 1], Store32Le(w)[1]);
    } else if k == 2 {
      assert Store32Le(Xor32(w, Load32Le(s, i)))[2] == XorByte(s[i + 2], Store32Le(w)[2]);
    } else {
      assert Store32Le(Xor32(w, Load32Le(s, i)))[3] == XorByte(s[i + 3], Store32Le(w)[3]);
    }
  }

  lemma AppendAssoc<T>(a: seq<T>, b: seq<T>, c: seq<T>, d: seq<T>)
    ensures a + b + c + d == a + (b + c + d)
  {
  }

  /** Little-endian value of a byte string, as an unbounded number. */
  function LeValue(s: seq<byte>): nat
  {
    if s == [] then 0 else s[0] as nat + 256 * LeValue(s[1..])
  }

  /** The `n` little-endian bytes of `x mod 256^n`. */
  function LeBytes(x: nat, n: nat): (r: seq<byte>)
    ensures |r| == n
  {
    if n == 0 then [] else [ByteOf(x % 256)] + LeBytes(x / 256, n - 1)
  }

  /** The byte whose value is v, counted up from 0 (a `uint8_t` cast of a value below 256). */
  function ByteOf(v: nat): byte
    requires v < 256
  {
    if v == 0 then 0 else ByteOf(v - 1) + 1
  }

  /** ByteOf(v) has the value v. */
  lemma {:induction false} ByteOfValue(v: nat)
    requires v < 256
    ensures ByteOf(v) as nat == v
  {
    if v > 0 {
      ByteOfValue(v - 1);
      ByteIncrement(ByteOf(v - 1));
    }
  }

  lemma ByteIncrement(b: byte)
    requires b as nat < 255
    ensures (b + 1) as nat == b as nat + 1
  {
  }

  /** Every byte is the ByteOf of its value. */
  lemma ByteOfByte(b: byte)
    ensures ByteOf(b as nat) == b
  {
    ByteOfValue(b as nat);
  }

  function Pow256(n: nat): (p: nat)
    ensures p > 0
  {
    if n == 0 then 1 else 256 * Pow256(n - 1)
  }
}
