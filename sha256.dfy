/**
  SHA-256 of crypto.c (`struct sha256`, `sha256_init`, `sha256_block`,
  `sha256_update`, `sha256_final`), after FIPS 180-4: the padding of
  section 5.1.1 and the hash computation of section 6.2.2.

  The one-shot definition `Digest` is the reference; the streaming context
  `Hasher` is proved to compute it whatever the split of the input into
  `Update` calls.
 */
module Sha256 {
  import opened Bytes

  /** The initial hash value of FIPS 180-4 section 5.3.3. */
  const H0: seq<bv32> :=
    [0x6a09e667, 0xbb67ae85, 0x3c6ef372, 0xa54ff53a, 0x510e527f, 0x9b05688c, 0x1f83d9ab, 0x5be0cd19]

  /** The round constants of FIPS 180-4 section 4.2.2 (K256 in crypto.c). */
  function K256(t: nat): bv32
    requires t < 64
  {
    [0x428a2f98, 0x71374491, 0xb5c0fbcf, 0xe9b5dba5, 0x3956c25b, 0x59f111f1, 0x923f82a4, 0xab1c5ed5,
     0xd807aa98, 0x12835b01, 0x243185be, 0x550c7dc3, 0x72be5d74, 0x80deb1fe, 0x9bdc06a7, 0xc19bf174,
     0xe49b69c1, 0xefbe4786, 0x0fc19dc6, 0x240ca1cc, 0x2de92c6f, 0x4a7484aa, 0x5cb0a9dc, 0x76f988da,
     0x983e5152, 0xa831c66d, 0xb00327c8, 0xbf597fc7, 0xc6e00bf3, 0xd5a79147, 0x06ca6351, 0x14292967,
     0x27b70a85, 0x2e1b2138, 0x4d2c6dfc, 0x53380d13, 0x650a7354, 0x766a0abb, 0x81c2c92e, 0x92722c85,
     0xa2bfe8a1, 0xa81a664b, 0xc24b8b70, 0xc76c51a3, 0xd192e819, 0xd6990624, 0xf40e3585, 0x106aa070,
     0x19a4c116, 0x1e376c08, 0x2748774c, 0x34b0bcb5, 0x391c0cb3, 0x4ed8aa4a, 0x5b9cca4f, 0x682e6ff3,
     0x748f82ee, 0x78a5636f, 0x84c87814, 0x8cc70208, 0x90befffa, 0xa4506ceb, 0xbef9a3f7, 0xc67178f2][t]
  }

  function And32(a: bv32, b: bv32): bv32
  {
    a & b
  }

  function Not32(a: bv32): bv32
  {
    !a
  }

  function Shr32(x: bv32, c: nat): bv32
    requires 0 < c < 32
  {
    x >> c
  }

  /** The functions of FIPS 180-4 section 4.1.2. */
  function Ch(e: bv32, f: bv32, g: bv32): bv32
  {
    Xor32(And32(e, f), And32(Not32(e), g))
  }

  function Maj(a: bv32, b: bv32, c: bv32): bv32
  {
    Xor32(Xor32(And32(a, b), And32(a, c)), And32(b, c))
  }

  function BigSigma0(x: bv32): bv32
  {
    Xor32(Xor32(Ror32(x, 2), Ror32(x, 13)), Ror32(x, 22))
  }

  function BigSigma1(x: bv32): bv32
  {
    Xor32(Xor32(Ror32(x, 6), Ror32(x, 11)), Ror32(x, 25))
  }

  function SmallSigma0(x: bv32): bv32
  {
    Xor32(Xor32(Ror32(x, 7), Ror32(x, 18)), Shr32(x, 3))
  }

  function SmallSigma1(x: bv32): bv32
  {
    Xor32(Xor32(Ror32(x, 17), Ror32(x, 19)), Shr32(x, 10))
  }

  /** Word t of the message schedule of one 64-byte block (FIPS 180-4 section 6.2.2, step 1). */
  function W(p: seq<byte>, t: nat): bv32
    requires |p| == 64 && t < 64
    decreases t
  {
    if t < 16 then Load32Be(p, 4 * t)
    else Add32(Add32(Add32(W(p, t - 16), SmallSigma0(W(p, t - 15))), W(p, t - 7)), SmallSigma1(W(p, t - 2)))
  }

  /** The eight working variables a..h. */
  datatype Vars = Vars(a: bv32, b: bv32, c: bv32, d: bv32, e: bv32, f: bv32, g: bv32, h: bv32)

  /** One round of the compression (FIPS 180-4 section 6.2.2, step 3). */
  function Round(v: Vars, k: bv32, w: bv32): (r: Vars)
    ensures r.b == v.a && r.c == v.b && r.d == v.c && r.f == v.e && r.g == v.f && r.h == v.g
  {
    var t1 := Add32(Add32(Add32(Add32(v.h, BigSigma1(v.e)), Ch(v.e, v.f, v.g)), k), w);
    var t2 := Add32(BigSigma0(v.a), Maj(v.a, v.b, v.c));
    Vars(Add32(t1, t2), v.a, v.b, v.c, Add32(v.d, t1), v.e, v.f, v.g)
  }

  /** The working variables after the first t rounds on block p. */
  function RoundsUpTo(v: Vars, p: seq<byte>, t: nat): Vars
    requires |p| == 64 && t <= 64
  {
    if t == 0 then v else Round(RoundsUpTo(v, p, t - 1), K256(t - 1), W(p, t - 1))
  }

  /** The intermediate hash value after one block (FIPS 180-4 section 6.2.2, steps 2-4). */
  function Compress(hv: seq<bv32>, p: seq<byte>): (r: seq<bv32>)
    requires |hv| == 8 && |p| == 64
    ensures |r| == 8
  {
    AddVars(hv, RoundsUpTo(VarsOf(hv), p, |p|))
  }

  function VarsOf(hv: seq<bv32>): Vars
    requires |hv| == 8
  {
    Vars(hv[0], hv[1], hv[2], hv[3], hv[4], hv[5], hv[6], hv[7])
  }

  /** The working variables added word-wise into the hash value. */
  function AddVars(hv: seq<bv32>, v: Vars): (r: seq<bv32>)
    requires |hv| == 8
    ensures |r| == 8
  {
    [Add32(hv[0], v.a), Add32(hv[1], v.b), Add32(hv[2], v.c), Add32(hv[3], v.d),
     Add32(hv[4], v.e), Add32(hv[5], v.f), Add32(hv[6], v.g), Add32(hv[7], v.h)]
  }

  /**
    A block compression function as a value. The streaming context refers
    to the compression through one of these, so that its proofs need not
    look inside Compress.
   */
  type Compressor = (seq<bv32>, seq<byte>) -> seq<bv32>

  /** Compress, as a total function value. */
  function Compression(): (c: Compressor)
    ensures IsCompression(c)
  {
    (hv: seq<bv32>, p: seq<byte>) => if |hv| == 8 && |p| == 64 then Compress(hv, p) else hv
  }

  /** c agrees with Compress on every hash value and block. */
  ghost predicate IsCompression(c: Compressor)
  {
    forall hv, p {:trigger Compress(hv, p)} | |hv| == 8 && |p| == 64 :: c(hv, p) == Compress(hv, p)
  }

  /** The hash value after the 64-byte blocks of m, compressed one after the other by c. */
  function HashBlocks(c: Compressor, hv: seq<bv32>, m: seq<byte>): seq<bv32>
    requires |m| % 64 == 0
    decreases |m|
  {
    if m == [] then hv else HashBlocks(c, c(hv, m[..64]), m[64..])
  }

  /** Eight words stay eight words. */
  lemma {:induction false} HashBlocksLength(c: Compressor, hv: seq<bv32>, m: seq<byte>)
    requires IsCompression(c) && |hv| == 8 && |m| % 64 == 0
    ensures |HashBlocks(c, hv, m)| == 8
    decreases |m|
  {
    if m != [] {
      assert c(hv, m[..64]) == Compress(hv, m[..64]);
      HashBlocksLength(c, c(hv, m[..64]), m[64..]);
    }
  }

  /** Two compression functions that agree with Compress give the same hash. */
  lemma {:induction false} HashBlocksAgree(c: Compressor, d: Compressor, hv: seq<bv32>, m: seq<byte>)
    requires IsCompression(c) && IsCompression(d) && |hv| == 8 && |m| % 64 == 0
    ensures HashBlocks(c, hv, m) == HashBlocks(d, hv, m)
    decreases |m|
  {
    if m != [] {
      CompressAgree(c, d, hv, m[..64]);
      HashBlocksAgree(c, d, c(hv, m[..64]), m[64..]);
    }
  }

  /** Two values that agree with Compress agree with each other on one block, and keep eight words. */
  lemma CompressAgree(c: Compressor, d: Compressor, hv: seq<bv32>, p: seq<byte>)
    requires IsCompression(c) && IsCompression(d) && |hv| == 8 && |p| == 64
    ensures c(hv, p) == d(hv, p) && |c(hv, p)| == 8
  {
    assert c(hv, p) == Compress(hv, p) == d(hv, p);
  }

  /** Hashing a + b block by block is hashing b from where a left off. */
  lemma {:induction false} HashBlocksAppend(c: Compressor, hv: seq<bv32>, a: seq<byte>, b: seq<byte>)
    requires |a| % 64 == 0 && |b| % 64 == 0
    ensures HashBlocks(c, hv, a + b) == HashBlocks(c, HashBlocks(c, hv, a), b)
    decreases |a|
  {
    if a == [] {
      assert a + b == b;
    } else {
      assert (a + b)[..64] == a[..64];
      assert (a + b)[64..] == a[64..] + b;
      HashBlocksAppend(c, c(hv, a[..64]), a[64..], b);
    }
  }

  lemma Mod64Step(x: nat)
    requires x % 64 == 0
    ensures (x + 64) % 64 == 0
  {
  }

  /** One more block: the hash of a + p is one compression of p after a. */
  lemma HashBlocksSnoc(c: Compressor, hv: seq<bv32>, a: seq<byte>, p: seq<byte>)
    requires |a| % 64 == 0 && |p| == 64
    ensures HashBlocks(c, hv, a + p) == c(HashBlocks(c, hv, a), p)
  {
    HashBlocksAppend(c, hv, a, p);
    assert p[..64] == p && p[64..] == [];
  }

  /** The message length in bits, as the 64-bit count `nbits` of sha256_final. */
  function Bits64(len: nat): bv64
  {
    ((len * 8) % 0x1_0000_0000_0000_0000) as bv64
  }

  /** The number of zero bytes of padding after 0x80 (FIPS 180-4 section 5.1.1). */
  function PadZeros(len: nat): (k: nat)
    ensures k < 64 && (len + 1 + k + 8) % 64 == 0
  {
    (55 - len) % 64
  }

  /** No smaller number of zero bytes reaches a block boundary. */
  lemma PadZerosLeast(len: nat, k: nat)
    requires (len + 1 + k + 8) % 64 == 0
    ensures PadZeros(len) <= k
  {
  }

  /**
    The padded message of FIPS 180-4 section 5.1.1: the message, a 0x80
    byte, the fewest zero bytes that reach 56 mod 64, and the bit length as
    a 64-bit big-endian number.
   */
  function Pad(m: seq<byte>): (r: seq<byte>)
    ensures |r| % 64 == 0 && |m| + 9 <= |r| <= |m| + 72
  {
    m + [0x80] + Zeros(PadZeros(|m|)) + Store64Be(Bits64(|m|))
  }

  /** The padded message starts with m and 0x80, ends with the bit length, and is zero between. */
  lemma PadShape(m: seq<byte>)
    ensures Pad(m)[..|m|] == m && Pad(m)[|m|] == 0x80
    ensures forall i | |m| < i < |Pad(m)| - 8 :: Pad(m)[i] == 0
    ensures Pad(m)[|Pad(m)| - 8..] == Store64Be(Bits64(|m|))
  {
    var r := Pad(m);
    assert r[..|m|] == m;
    assert r[|r| - 8..] == Store64Be(Bits64(|m|));
  }

  /** Words serialised big-endian, one after the other (`sha256_serialize`). */
  function WordsBe(w: seq<bv32>): (b: seq<byte>)
    ensures |b| == 4 * |w|
  {
    if w == [] then [] else Store32Be(w[0]) + WordsBe(w[1..])
  }

  /** Byte 4i+k of the serialisation is byte k of word i. */
  lemma {:induction false} WordsBeByte(w: seq<bv32>, i: nat, k: nat)
    requires i < |w| && k < 4
    ensures WordsBe(w)[4 * i + k] == Store32Be(w[i])[k]
  {
    if i > 0 {
      WordsBeByte(w[1..], i - 1, k);
    }
  }

  /** The digest of m, with the blocks compressed by c. */
  function DigestWith(c: Compressor, m: seq<byte>): (d: seq<byte>)
    requires IsCompression(c)
    ensures |d| == 32
  {
    HashBlocksLength(c, H0, Pad(m));
    WordsBe(HashBlocks(c, H0, Pad(m)))
  }

  /** The SHA-256 digest of m. */
  function Digest(m: seq<byte>): (d: seq<byte>)
    ensures |d| == 32
  {
    DigestWith(Compression(), m)
  }

  /** Any compression function value that agrees with Compress gives the SHA-256 digest. */
  lemma DigestAgree(c: Compressor, d: Compressor, m: seq<byte>)
    requires IsCompression(c) && IsCompression(d)
    ensures DigestWith(c, m) == DigestWith(d, m)
  {
    HashBlocksAgree(c, d, H0, Pad(m));
  }

  /**
    The message-schedule part of ROUND_0_15 and ROUND_16_19: word t read
    big-endian from the block, or combined from four earlier words.
   */
  method ScheduleWord(w: array<bv32>, p: seq<byte>, t: nat)
    requires w.Length == 64 && |p| == 64 && t < 64
    requires forall j | 0 <= j < t :: w[j] == W(p, j)
    modifies w
    ensures forall j | 0 <= j <= t :: w[j] == W(p, j)
  {
    if t < 16 {
      w[t] := Load32Be(p, 4 * t);
    } else {
      var s0 := SmallSigma0(w[t - 15]);
      var s1 := SmallSigma1(w[t - 2]);
      w[t] := Add32(Add32(Add32(w[t - 16], s0), w[t - 7]), s1);
    }
  }

  /** ROUND_CORE: one round on the working variables. */
  method RoundCore(v: Vars, k: bv32, w: bv32) returns (r: Vars)
    ensures r == Round(v, k, w)
  {
    var S1 := BigSigma1(v.e);
    var t1 := Add32(Add32(Add32(Add32(v.h, S1), Ch(v.e, v.f, v.g)), k), w);
    var S0 := BigSigma0(v.a);
    var t2 := Add32(S0, Maj(v.a, v.b, v.c));
    r := Vars(Add32(t1, t2), v.a, v.b, v.c, Add32(v.d, t1), v.e, v.f, v.g);
  }

  /**
    `sha256_block(state, p)`: the 64 rounds of one block, then the working
    variables added into `state`.
   */
  method Block(state: array<bv32>, p: seq<byte>)
    requires state.Length == 8 && |p| == 64
    modifies state
    ensures state[..] == Compress(old(state[..]), p)
  {
    ghost var hv := state[..];
    var r := AllRounds(p, Vars(state[0], state[1], state[2], state[3], state[4], state[5], state[6], state[7]));
    assert VarsOf(hv) == Vars(state[0], state[1], state[2], state[3], state[4], state[5], state[6], state[7]);
    var sum := AddVars(state[..], r);
    forall k | 0 <= k < 8 {
      state[k] := sum[k];
    }
    assert state[..] == sum;
  }

  /**
    ROUND_0_15(i) and ROUND_16_19(i): schedule word i, then run round i on
    the working variables.
   */
  method ScheduledRound(w: array<bv32>, p: seq<byte>, i: nat, ghost v0: Vars, v: Vars) returns (r: Vars)
    requires w.Length == 64 && |p| == 64 && i < 64
    requires forall j | 0 <= j < i :: w[j] == W(p, j)
    requires v == RoundsUpTo(v0, p, i)
    modifies w
    ensures forall j | 0 <= j <= i :: w[j] == W(p, j)
    ensures r == RoundsUpTo(v0, p, i + 1)
  {
    ScheduleWord(w, p, i);
    r := RoundCore(v, K256(i), w[i]);
  }

  /**
    The 64 rounds of `sha256_block` on the working variables, with the
    message schedule `w[64]` computed one word per round.
   */
  method AllRounds(p: seq<byte>, v0: Vars) returns (r: Vars)
    requires |p| == 64
    ensures r == RoundsUpTo(v0, p, |p|)
  {
    var w := new bv32[64];
    r := v0;
    for i := 0 to 64
      invariant forall j | 0 <= j < i :: w[j] == W(p, j)
      invariant r == RoundsUpTo(v0, p, i)
    {
      r := ScheduledRound(w, p, i, v0, r);
    }
  }

  /** Block, stated through a compression function value that agrees with Compress. */
  method BlockWith(state: array<bv32>, p: seq<byte>, ghost c: Compressor)
    requires state.Length == 8 && |p| == 64 && IsCompression(c)
    modifies state
    ensures state[..] == c(old(state[..]), p)
  {
    Block(state, p);
  }

  /**
    `struct sha256`: the hash state, the partial block `buffer[0..n)` and
    the count `n64` of bytes already compressed. `absorbed` is everything
    given to `Update` since `sha256_init`.
   */
  class Hasher {
    const state: array<bv32>
    var buffer: seq<byte>
    var n64: nat
    var n: nat
    ghost var absorbed: seq<byte>
    ghost const compress: Compressor

    ghost predicate Valid()
      reads this, state
    {
      Partial() && n < 64
    }

    /** Valid, except that the buffer may be full. */
    ghost predicate Partial()
      reads this, state
    {
      state.Length == 8 && |buffer| == 64 && n <= 64 && n64 % 64 == 0 && n64 + n == |absorbed| &&
      IsCompression(compress) && state[..] == HashBlocks(compress, H0, absorbed[..n64]) &&
      buffer[..n] == absorbed[n64..]
    }

    /** `sha256_init` */
    constructor ()
      ensures Valid() && absorbed == [] && n64 == 0 && n == 0 && fresh(state)
    {
      state := new bv32[8](i requires 0 <= i < 8 => H0[i]);
      buffer := Zeros(64);
      n64, n := 0, 0;
      absorbed := [];
      compress := Compression();
      new;
      assert state[..] == H0;
    }

    /** `memcpy(&ctx, &ictx, sizeof(struct sha256))`: a copy of another context. */
    constructor Copy(other: Hasher)
      requires other.Valid()
      ensures Valid() && absorbed == other.absorbed && buffer == other.buffer
      ensures n64 == other.n64 && n == other.n && state[..] == other.state[..] && fresh(state)
    {
      state := new bv32[8](i requires 0 <= i < 8 reads other.state => other.state[i]);
      buffer, n64, n := other.buffer, other.n64, other.n;
      absorbed := other.absorbed;
      compress := other.compress;
      new;
      assert state[..] == other.state[..];
    }

    /** `sha256_update(ctx, data, n)` */
    method Update(data: seq<byte>)
      requires Valid()
      modifies this, state
      ensures Valid() && absorbed == old(absorbed) + data
    {
      ghost var base := absorbed;
      var inp: nat := 0;
      assert data[..0] == [];
      if |data| < 64 || n > 0 {
        var full;
        inp, full := FillBuffer(data);
        if !full {
          assert data[..inp] == data;
          return;
        }
      }
      inp := CompressBlocks(data, inp, base);
      StoreTail(data, inp, base);
    }

    /**
      The first branch of sha256_update: the buffer takes as much of the data
      as fits; once full it is compressed (`full`), otherwise the call ends.
     */
    method FillBuffer(data: seq<byte>) returns (j: nat, full: bool)
      requires Valid()
      modifies this, state
      ensures Valid() && j <= |data| && absorbed == old(absorbed) + data[..j]
      ensures full ==> n == 0
      ensures !full ==> j == |data|
    {
      j := if n + |data| < 64 then |data| else 64 - n;
      CopyIn(data, 0, j);
      assert data[0..j] == data[..j];
      full := n == 64;
      if full {
        CompressBuffer();
      }
    }

    /** The loop of sha256_update over the whole blocks of the remaining data. */
    method CompressBlocks(data: seq<byte>, from: nat, ghost base: seq<byte>) returns (inp: nat)
      requires Valid() && n == 0 && from <= |data| && absorbed == base + data[..from]
      modifies this, state
      ensures Valid() && n == 0 && inp <= |data| < inp + 64 && absorbed == base + data[..inp]
    {
      inp := from;
      while |data| - inp >= 64
        invariant inp <= |data|
        invariant Valid() && n == 0 && absorbed == base + data[..inp]
      {
        CompressInput(data[inp..inp + 64]);
        assert data[..inp + 64] == data[..inp] + data[inp..inp + 64];
        inp := inp + 64;
      }
    }

    /** The last branch of sha256_update: what is left of the data goes to the buffer. */
    method StoreTail(data: seq<byte>, inp: nat, ghost base: seq<byte>)
      requires Valid() && n == 0 && inp <= |data| < inp + 64 && absorbed == base + data[..inp]
      modifies this
      ensures Valid() && absorbed == base + data
    {
      if inp < |data| {
        CopyIn(data, inp, |data| - inp);
      }
      assert data[..inp] + data[inp..|data|] == data;
    }

    /**
      The byte-copy loops of sha256_update: src[from..from+len) appended to
      the buffer.
     */
    method CopyIn(src: seq<byte>, from: nat, len: nat)
      requires Partial() && n + len <= 64 && from + len <= |src|
      modifies this
      ensures Partial() && n == old(n) + len && n64 == old(n64) && absorbed == old(absorbed) + src[from..from + len]
    {
      var i := 0;
      while i < len
        invariant 0 <= i <= len && |buffer| == 64
        invariant n == old(n) && n64 == old(n64) && absorbed == old(absorbed)
        invariant forall k | 0 <= k < n :: buffer[k] == old(buffer[k])
        invariant forall k | n <= k < n + i :: buffer[k] == src[from + k - n]
      {
        buffer := buffer[n + i := src[from + i]];
        i := i + 1;
      }
      ghost var prev := absorbed;
      absorbed := absorbed + src[from..from + len];
      assert absorbed[..n64] == prev[..n64];
      assert buffer[..n + len] == absorbed[n64..];
      n := n + len;
    }

    /** A full buffer is compressed and emptied. */
    method CompressBuffer()
      requires Partial() && n == 64
      modifies this, state
      ensures Valid() && n == 0 && absorbed == old(absorbed)
    {
      assert buffer == buffer[..64];
      assert absorbed[..n64 + 64] == absorbed[..n64] + buffer;
      HashBlocksSnoc(compress, H0, absorbed[..n64], buffer);
      BlockWith(state, buffer, compress);
      n64, n := n64 + 64, 0;
    }

    /** A full block of input is compressed directly, bypassing the buffer. */
    method CompressInput(p: seq<byte>)
      requires Valid() && n == 0 && |p| == 64
      modifies this, state
      ensures Valid() && n == 0 && absorbed == old(absorbed) + p
    {
      ghost var done := absorbed;
      assert done[..n64] == done;
      Mod64Step(|done|);
      HashBlocksSnoc(compress, H0, done, p);
      BlockWith(state, p, compress);
      absorbed := done + p;
      n64 := n64 + 64;
      assert absorbed[..n64] == absorbed;
    }

    /**
      `sha256_final(ctx, hash)`: 0x80, zeros until the length is 56 mod 64,
      the 64-bit bit count, absorbed with Update; then the state serialised.
     */
    method Final() returns (hash: seq<byte>)
      requires Valid()
      modifies this, state
      ensures hash == DigestWith(compress, old(absorbed))
    {
      ghost var msg := absorbed;
      var nbits := Bits64(n64 + n);
      var pad := PadBytes(n);
      PadIs(msg, n64, n, pad);
      Update(pad + Store64Be(nbits));
      hash := Serialize(state);
      DigestOf(compress, msg, absorbed, n64, state[..]);
    }
  }

  /** sha256_init, sha256_update and sha256_final in a row: the SHA-256 digest of m. */
  method Hash(m: seq<byte>) returns (d: seq<byte>)
    ensures d == Digest(m)
  {
    var ctx := new Hasher();
    ctx.Update(m);
    assert ctx.absorbed == m;
    d := ctx.Final();
    DigestAgree(ctx.compress, Compression(), m);
  }

  /**
    The position in the stream decides how a context splits into hashed
    blocks and buffered bytes: n is the length mod 64.
   */
  lemma Determined(h: Hasher)
    requires h.Valid()
    ensures h.n == |h.absorbed| % 64 && h.n64 == |h.absorbed| - h.n
  {
    ModShift(h.n64, h.n);
  }

  /**
    Two contexts that have absorbed the same bytes, in however many calls to
    sha256_update, have the same state, counters and buffered bytes.
   */
  lemma SameInputSameState(h1: Hasher, h2: Hasher)
    requires h1.Valid() && h2.Valid() && h1.absorbed == h2.absorbed
    ensures h1.state[..] == h2.state[..] && h1.n64 == h2.n64 && h1.n == h2.n
    ensures h1.buffer[..h1.n] == h2.buffer[..h2.n]
  {
    Determined(h1);
    Determined(h2);
    HashBlocksAgree(h1.compress, h2.compress, H0, h1.absorbed[..h1.n64]);
  }

  /**
    The padding loop of sha256_final: 0x80, then zeros until `n + i + 8` is
    a multiple of 64.
   */
  method PadBytes(n: nat) returns (pad: seq<byte>)
    ensures pad == [0x80] + Zeros(PadZeros(n))
  {
    ghost var k := PadZeros(n);
    pad := [0x80];
    var i := 1;
    while (n + i + 8) % 64 != 0
      invariant 1 <= i <= k + 1 && pad == [0x80] + Zeros(i - 1)
      decreases k + 1 - i
    {
      pad := pad + [0];
      i := i + 1;
    }
    PadZerosLeast(n, i - 1);
  }

  /**
    Once the padded message has been absorbed, the buffer is empty and the
    state is the hash value of the whole of it.
   */
  lemma DigestOf(c: Compressor, msg: seq<byte>, absorbed: seq<byte>, n64: nat, st: seq<bv32>)
    requires IsCompression(c) && absorbed == Pad(msg)
    requires n64 <= |absorbed| < n64 + 64 && n64 % 64 == 0
    requires st == HashBlocks(c, H0, absorbed[..n64])
    ensures WordsBe(st) == DigestWith(c, msg)
  {
    ModShift(n64, |absorbed| - n64);
    assert absorbed[..n64] == absorbed;
  }

  /** The bytes sha256_final feeds to sha256_update complete the padded message. */
  lemma PadIs(msg: seq<byte>, n64: nat, n: nat, pad: seq<byte>)
    requires |msg| == n64 + n && n64 % 64 == 0
    requires pad == [0x80] + Zeros(PadZeros(n))
    ensures msg + (pad + Store64Be(Bits64(n64 + n))) == Pad(msg)
  {
    PadZerosShift(n64, n);
    AppendAssoc(msg, [0x80], Zeros(PadZeros(n)), Store64Be(Bits64(n64 + n)));
  }

  /** Only the length modulo 64 decides the padding. */
  lemma PadZerosShift(m: nat, n: nat)
    requires m % 64 == 0
    ensures PadZeros(m + n) == PadZeros(n)
  {
    ModShift(m, n + 1 + PadZeros(n) + 8);
    PadZerosLeast(m + n, PadZeros(n));
    ModShift(m, n + 1 + PadZeros(m + n) + 8);
    PadZerosLeast(n, PadZeros(m + n));
  }

  /** x mod 64 is unchanged by adding a multiple of 64. */
  lemma ModShift(m: nat, x: nat)
    requires m % 64 == 0
    ensures (m + x) % 64 == x % 64
  {
  }

  /** `sha256_serialize(state, hash)`: the eight words stored big-endian. */
  method Serialize(state: array<bv32>) returns (hash: seq<byte>)
    ensures hash == WordsBe(state[..])
  {
    hash := [];
    for i := 0 to state.Length
      invariant hash == WordsBe(state[..i])
    {
      WordsBeSnoc(state[..i], state[i]);
      assert state[..i + 1] == state[..i] + [state[i]];
      hash := hash + Store32Be(state[i]);
    }
    assert state[..state.Length] == state[..];
  }

  lemma {:induction false} WordsBeSnoc(w: seq<bv32>, x: bv32)
    ensures WordsBe(w + [x]) == WordsBe(w) + Store32Be(x)
  {
    if w == [] {
      assert [x][1..] == [];
    } else {
      assert (w + [x])[1..] == w[1..] + [x];
      WordsBeSnoc(w[1..], x);
    }
  }
}
