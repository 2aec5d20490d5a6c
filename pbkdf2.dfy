/**
  HMAC-SHA256 (RFC 2104) and PBKDF2 (section 5.2 of RFC 8018) as computed by
  pbkdf2_hmac_sha256 in crypto.c: the reference definitions, the
  precomputed inner/outer context shortcut of the source, and the method
  that writes the derived key.

  HMAC and the pseudorandom function of PBKDF2 take the hash function as a
  value H; Hmac and Pbkdf2Sha256 fix it to Sha256.Digest. The methods relate
  the contexts, which compress with a value c, to H through Digests(H, c).
 */
module Pbkdf2 {
  import opened Bytes
  import opened Sha256

  /** A hash function on byte strings. */
  type Hash = seq<byte> -> seq<byte>

  /** Every hash value is 32 bytes long. */
  ghost predicate Hashes32(H: Hash)
  {
    forall m :: |H(m)| == 32
  }

  /**
    H is SHA-256 computed with c. The link is used only where a DigestWith
    term is already around, so that the padding is unfolded only there.
   */
  ghost predicate Digests(H: Hash, c: Compressor)
  {
    Hashes32(H) && IsCompression(c) && forall m {:trigger DigestWith(c, m)} :: H(m) == DigestWith(c, m)
  }

  /** Digest is SHA-256 with any value that agrees with Compress. */
  lemma DigestDigests()
    ensures forall c | IsCompression(c) :: Digests(Digest, c)
  {
    forall c | IsCompression(c)
      ensures Digests(Digest, c)
    {
      forall m
        ensures Digest(m) == DigestWith(c, m)
      {
        DigestAgree(Compression(), c, m);
      }
    }
  }

  /** The HMAC key block (RFC 2104 with B = 64): a long key is hashed first, then zero-padded. */
  function KeyBlock(H: Hash, key: seq<byte>): (kb: seq<byte>)
    requires Hashes32(H)
    ensures |kb| == 64
  {
    if |key| > 64 then H(key) + Zeros(32) else key + Zeros(64 - |key|)
  }

  /** H((K ^ opad) || H((K ^ ipad) || msg)) */
  function HmacOf(H: Hash, key: seq<byte>, msg: seq<byte>): (mac: seq<byte>)
    requires Hashes32(H)
    ensures |mac| == 32
  {
    var kb := KeyBlock(H, key);
    H(XorConst(kb, 0x5C) + H(XorConst(kb, 0x36) + msg))
  }

  lemma DigestLength()
    ensures Hashes32(Digest)
  {
  }

  /** HMAC-SHA256 of msg under key. */
  function Hmac(key: seq<byte>, msg: seq<byte>): (mac: seq<byte>)
    ensures |mac| == 32
  {
    DigestLength();
    HmacOf(Digest, key, msg)
  }

  /**
    INT(i) of RFC 8018: the block index as four big-endian bytes.
    `STORE32_BE(ibuf, i)` stores the low 32 bits of the size_t i.
   */
  function BlockIndex(i: nat): (b: seq<byte>)
    ensures |b| == 4
  {
    [((i / 0x100_0000) % 256) as bv8, ((i / 0x1_0000) % 256) as bv8, ((i / 0x100) % 256) as bv8, (i % 256) as bv8]
  }

  /** A pseudorandom function of RFC 8018: key and message to bytes. */
  type Prf = (seq<byte>, seq<byte>) -> seq<byte>

  /** Every output is 32 bytes long, the hLen of HMAC-SHA256. */
  ghost predicate Outputs32(prf: Prf)
  {
    forall key, msg :: |prf(key, msg)| == 32
  }

  /** prf is HMAC with the hash function H. */
  ghost predicate Computes(prf: Prf, H: Hash)
  {
    Hashes32(H) && forall key, msg :: prf(key, msg) == HmacOf(H, key, msg)
  }

  /** HMAC as a function value. */
  function HmacPrf(H: Hash): (prf: Prf)
    requires Hashes32(H)
    ensures Outputs32(prf) && Computes(prf, H)
  {
    (key: seq<byte>, msg: seq<byte>) => HmacOf(H, key, msg)
  }

  /** U_j of block i: U_1 = PRF(P, S || INT(i)), U_j = PRF(P, U_{j-1}). */
  function U(prf: Prf, pass: seq<byte>, salt: seq<byte>, i: nat, j: nat): (u: seq<byte>)
    requires Outputs32(prf) && j >= 1
    ensures |u| == 32
    decreases j
  {
    if j == 1 then prf(pass, salt + BlockIndex(i)) else prf(pass, U(prf, pass, salt, i, j - 1))
  }

  /**
    F(P, S, c, i) = U_1 ^ ... ^ U_c. An iteration count of 0 gives U_1, as
    the source's loop `for (j = 1; j < iter; j++)` does.
   */
  function F(prf: Prf, pass: seq<byte>, salt: seq<byte>, c: nat, i: nat): (t: seq<byte>)
    requires Outputs32(prf)
    ensures |t| == 32
    decreases c
  {
    if c <= 1 then U(prf, pass, salt, i, 1) else XorBytes(F(prf, pass, salt, c - 1, i), U(prf, pass, salt, i, c))
  }

  /** A sequence of 32-byte blocks T_1, T_2, ... */
  type BlockSeq = nat -> seq<byte>

  ghost predicate Blocks32(T: BlockSeq)
  {
    forall i :: |T(i)| == 32
  }

  /** T_i || T_{i+1} || ..., cut to len bytes. */
  function Concat(T: BlockSeq, i: nat, len: nat): (dk: seq<byte>)
    requires Blocks32(T)
    ensures |dk| == len
    decreases len
  {
    if len == 0 then []
    else
      var l := if len < 32 then len else 32;
      T(i)[..l] + Concat(T, i + 1, len - l)
  }

  /** The blocks T_i = F(P, S, c, i) of RFC 8018. */
  function Ts(prf: Prf, pass: seq<byte>, salt: seq<byte>, c: nat): (T: BlockSeq)
    requires Outputs32(prf)
    ensures Blocks32(T) && forall i :: T(i) == F(prf, pass, salt, c, i)
  {
    (i: nat) => F(prf, pass, salt, c, i)
  }

  /** PBKDF2(P, S, c, dkLen) with the given PRF: T_1 || T_2 || ... cut to dkLen bytes. */
  function Derive(prf: Prf, pass: seq<byte>, salt: seq<byte>, c: nat, dkLen: nat): (dk: seq<byte>)
    requires Outputs32(prf)
    ensures |dk| == dkLen
  {
    Concat(Ts(prf, pass, salt, c), 1, dkLen)
  }

  /** PBKDF2-HMAC-SHA256(P, S, c, dkLen). */
  function Pbkdf2Sha256(pass: seq<byte>, salt: seq<byte>, c: nat, dkLen: nat): (dk: seq<byte>)
    ensures |dk| == dkLen
  {
    DigestLength();
    Derive(HmacPrf(Digest), pass, salt, c, dkLen)
  }

  /** Byte 32q + k of the concatenation is byte k of block T_{i+q}. */
  lemma {:induction false} ConcatByte(T: BlockSeq, i: nat, len: nat, q: nat, k: nat)
    requires Blocks32(T) && k < 32 && 32 * q + k < len
    ensures Concat(T, i, len)[32 * q + k] == T(i + q)[k]
    decreases q
  {
    if q == 0 {
      assert Concat(T, i, len)[k] == T(i)[..if len < 32 then len else 32][k];
    } else {
      var rest := Concat(T, i + 1, len - 32);
      assert Concat(T, i, len) == T(i)[..32] + rest;
      ConcatByte(T, i + 1, len - 32, q - 1, k);
      assert 32 * q + k == 32 + (32 * (q - 1) + k);
    }
  }

  /** The derived key is made of the blocks T_1, T_2, ... in order, the last one truncated. */
  lemma DeriveByte(prf: Prf, pass: seq<byte>, salt: seq<byte>, c: nat, dkLen: nat, q: nat, k: nat)
    requires Outputs32(prf) && k < 32 && 32 * q + k < dkLen
    ensures Derive(prf, pass, salt, c, dkLen)[32 * q + k] == F(prf, pass, salt, c, q + 1)[k]
  {
    var T := Ts(prf, pass, salt, c);
    ConcatByte(T, 1, dkLen, q, k);
    assert T(1 + q) == F(prf, pass, salt, c, q + 1);
  }

  /** Bytes off .. off + len of the key, for off = 32(i - 1), are the first len bytes of T_i. */
  lemma DeriveChunk(prf: Prf, pass: seq<byte>, salt: seq<byte>, c: nat, dkLen: nat, i: nat, off: nat, len: nat)
    requires Outputs32(prf) && i >= 1 && off == 32 * (i - 1) && off + len <= dkLen && len <= 32
    ensures forall t | off <= t < off + len :: Derive(prf, pass, salt, c, dkLen)[t] == F(prf, pass, salt, c, i)[t - off]
  {
    var dk, block := Derive(prf, pass, salt, c, dkLen), F(prf, pass, salt, c, i);
    forall t | off <= t < off + len
      ensures dk[t] == block[t - off]
    {
      var k := t - off;
      assert t == 32 * (i - 1) + k;
      DeriveByte(prf, pass, salt, c, dkLen, i - 1, k);
    }
  }

  /** A shorter key is a prefix of a longer one with the same password, salt and count. */
  lemma DerivePrefix(prf: Prf, pass: seq<byte>, salt: seq<byte>, c: nat, len1: nat, len2: nat)
    requires Outputs32(prf) && len1 <= len2
    ensures Derive(prf, pass, salt, c, len1) == Derive(prf, pass, salt, c, len2)[..len1]
  {
    forall t | 0 <= t < len1
      ensures Derive(prf, pass, salt, c, len1)[t] == Derive(prf, pass, salt, c, len2)[t]
    {
      var q, k := t / 32, t % 32;
      DeriveByte(prf, pass, salt, c, len1, q, k);
      DeriveByte(prf, pass, salt, c, len2, q, k);
    }
  }

  /** F for one more iteration is the previous F exclusive-or'ed with the next U. */
  lemma FStep(prf: Prf, pass: seq<byte>, salt: seq<byte>, i: nat, j: nat, next: nat)
    requires Outputs32(prf) && j >= 1 && next == j + 1
    ensures U(prf, pass, salt, i, next) == prf(pass, U(prf, pass, salt, i, j))
    ensures forall k | 0 <= k < 32 :: F(prf, pass, salt, next, i)[k] == XorByte(F(prf, pass, salt, j, i)[k], U(prf, pass, salt, i, next)[k])
  {
  }

  /**
    The last 32 bytes of iblock and oblock in the main loop: 0x80, zeros and
    `STORE32_BE(&block[60], 96*8)`.
   */
  function Tail96(): (t: seq<byte>)
    ensures |t| == 32
  {
    [0x80] + Zeros(27) + Store32Be(96 * 8)
  }

  /** Those 32 bytes are the SHA-256 padding of a 96-byte message. */
  lemma Tail96IsPad(m: seq<byte>)
    requires |m| == 96
    ensures Pad(m) == m + Tail96()
  {
    assert PadZeros(|m|) == 23;
    Bits96();
    AppendAssoc(m, [0x80], Zeros(23), Store64Be(768));
    TailBytes();
  }

  lemma Bits96()
    ensures Bits64(96) == 768
  {
    assert (96 * 8) % 0x1_0000_0000_0000_0000 == 768;
  }

  lemma TailBytes()
    ensures [0x80] + Zeros(23) + Store64Be(768) == Tail96()
  {
    var a := [0x80] + Zeros(23) + Store64Be(768);
    assert Store64Be(768) == [0, 0, 0, 0, 0, 0, 3, 0];
    assert Store32Be(96 * 8) == [0, 0, 3, 0];
    forall t | 0 <= t < 32
      ensures a[t] == Tail96()[t]
    {
    }
  }

  /**
    The shortcut of pbkdf2_hmac_sha256: with s the state after the 64-byte
    key block k, the digest of k || u for a 32-byte u is one more
    compression of u || Tail96().
   */
  lemma ShortDigest(H: Hash, c: Compressor, k: seq<byte>, u: seq<byte>, s: seq<bv32>)
    requires Digests(H, c) && |k| == 64 && |u| == 32
    requires s == HashBlocks(c, H0, k)
    ensures H(k + u) == WordsBe(c(s, u + Tail96()))
  {
    Tail96IsPad(k + u);
    assert Pad(k + u) == k + (u + Tail96());
    HashBlocksSnoc(c, H0, k, u + Tail96());
    assert H(k + u) == DigestWith(c, k + u);
  }

  /**
    HMAC through the precomputed contexts: with the inner hash value h of
    the message, the outer hash is one compression from the outer state.
   */
  lemma HmacOuter(H: Hash, c: Compressor, pass: seq<byte>, msg: seq<byte>, h: seq<byte>, so: seq<bv32>)
    requires Digests(H, c) && h == H(XorConst(KeyBlock(H, pass), 0x36) + msg)
    requires so == HashBlocks(c, H0, XorConst(KeyBlock(H, pass), 0x5C))
    ensures HmacOf(H, pass, msg) == WordsBe(c(so, h + Tail96()))
  {
    ShortDigest(H, c, XorConst(KeyBlock(H, pass), 0x5C), h, so);
  }

  /**
    The inner loop of pbkdf2_hmac_sha256 matches a naive HMAC of a 32-byte
    value: two compressions from the two precomputed states.
   */
  lemma HmacShortcut(H: Hash, c: Compressor, pass: seq<byte>, u: seq<byte>, si: seq<bv32>, so: seq<bv32>)
    requires Digests(H, c) && |u| == 32
    requires si == HashBlocks(c, H0, XorConst(KeyBlock(H, pass), 0x36))
    requires so == HashBlocks(c, H0, XorConst(KeyBlock(H, pass), 0x5C))
    ensures HmacOf(H, pass, u) == WordsBe(c(so, WordsBe(c(si, u + Tail96())) + Tail96()))
  {
    ShortDigest(H, c, XorConst(KeyBlock(H, pass), 0x36), u, si);
    HmacOuter(H, c, pass, u, WordsBe(c(si, u + Tail96())), so);
  }

  /** The "Initialize keyblock" step: a long password is hashed, a short one zero-padded. */
  method KeyBlockOf(pass: seq<byte>, ghost H: Hash) returns (kb: seq<byte>)
    ensures |kb| == 64
    ensures forall c | Digests(H, c) :: kb == KeyBlock(H, pass)
  {
    if |pass| > 64 {
      var ctx := new Hasher();
      ctx.Update(pass);
      assert ctx.absorbed == pass;
      var h := ctx.Final();
      kb := h + Zeros(32);
      forall c | Digests(H, c)
        ensures kb == KeyBlock(H, pass)
      {
        DigestAgree(ctx.compress, c, pass);
        assert H(pass) == DigestWith(c, pass);
      }
    } else {
      kb := pass + Zeros(64 - |pass|);
    }
  }

  /** "Prepare iblock and oblock": the contexts after the inner and the outer key block. */
  method Prepare(kb: seq<byte>) returns (ictx: Hasher, octx: Hasher)
    requires |kb| == 64
    ensures fresh(ictx) && fresh(ictx.state) && fresh(octx) && fresh(octx.state)
    ensures ictx.Valid() && ictx.absorbed == XorConst(kb, 0x36)
    ensures octx.Valid() && octx.absorbed == XorConst(kb, 0x5C)
  {
    ictx := new Hasher();
    octx := new Hasher();
    var iblock, oblock := Zeros(64), Zeros(64);
    for i := 0 to 64
      invariant |iblock| == 64 && |oblock| == 64
      invariant forall t | 0 <= t < i :: iblock[t] == XorByte(kb[t], 0x36) && oblock[t] == XorByte(kb[t], 0x5C)
    {
      iblock := iblock[i := XorByte(kb[i], 0x36)];
      oblock := oblock[i := XorByte(kb[i], 0x5C)];
    }
    assert iblock == XorConst(kb, 0x36);
    assert oblock == XorConst(kb, 0x5C);
    ictx.Update(iblock);
    octx.Update(oblock);
  }

  /** A context after a 64-byte key block: nothing buffered, one block hashed. */
  lemma KeyedState(h: Hasher, c: Compressor)
    requires h.Valid() && |h.absorbed| == 64 && IsCompression(c)
    ensures h.n == 0 && h.n64 == 64 && h.state[..] == HashBlocks(c, H0, h.absorbed)
  {
    Determined(h);
    assert h.absorbed[..64] == h.absorbed;
    HashBlocksAgree(h.compress, c, H0, h.absorbed);
  }

  /** The words of a context's state, into a fresh `uint32_t[8]` (`memcpy(O, octx.state, 32)`). */
  method CopyState(h: Hasher) returns (w: array<bv32>)
    requires h.Valid()
    ensures fresh(w) && w[..] == h.state[..]
  {
    w := new bv32[8];
    forall k | 0 <= k < 8 {
      w[k] := h.state[k];
    }
  }

  /**
    `memcpy(O, octx.state, 32); sha256_block(O, block); sha256_serialize(O, out)`
    with block = u || Tail96(): a saved context after one key block
    compresses one more block.
   */
  method ResumeBlock(ghost c: Compressor, h: Hasher, u: seq<byte>) returns (v: seq<byte>)
    requires IsCompression(c) && h.Valid() && |h.absorbed| == 64 && |u| == 32
    ensures |v| == 32 && v == WordsBe(c(HashBlocks(c, H0, h.absorbed), u + Tail96()))
  {
    KeyedState(h, c);
    var w := CopyState(h);
    BlockWith(w, u + Tail96(), c);
    v := Serialize(w);
  }

  /** The two saved contexts of pbkdf2_hmac_sha256, for the key block of pass. */
  ghost predicate Keyed(H: Hash, c: Compressor, pass: seq<byte>, ictx: Hasher, octx: Hasher)
    reads ictx, ictx.state, octx, octx.state
  {
    Digests(H, c) &&
    ictx.Valid() && ictx.absorbed == XorConst(KeyBlock(H, pass), 0x36) &&
    octx.Valid() && octx.absorbed == XorConst(KeyBlock(H, pass), 0x5C)
  }

  /**
    The inner hash of U_1: a copy of the inner context absorbs salt and
    INT(i) and is finalised.
   */
  method InnerDigest(ghost H: Hash, ghost c: Compressor, ghost ipad: seq<byte>, salt: seq<byte>, i: nat, ictx: Hasher)
    returns (h: seq<byte>)
    requires Digests(H, c) && ictx.Valid() && ictx.absorbed == ipad
    ensures h == H(ipad + (salt + BlockIndex(i)))
  {
    var ibuf := BlockIndex(i);
    var ctx := new Hasher.Copy(ictx);
    ctx.Update(salt);
    ctx.Update(ibuf);
    ghost var inner := ctx.absorbed;
    assert inner == ipad + (salt + ibuf);
    h := ctx.Final();
    DigestAgree(ctx.compress, c, inner);
    assert H(inner) == DigestWith(c, inner);
  }

  /** U_1 of block i: the inner hash, then one compression from the outer state. */
  method FirstU(ghost H: Hash, ghost c: Compressor, ghost pass: seq<byte>, salt: seq<byte>, i: nat, ictx: Hasher, octx: Hasher)
    returns (u: seq<byte>)
    requires Keyed(H, c, pass, ictx, octx)
    ensures u == HmacOf(H, pass, salt + BlockIndex(i))
  {
    var h := InnerDigest(H, c, XorConst(KeyBlock(H, pass), 0x36), salt, i, ictx);
    u := ResumeBlock(c, octx, h);
    HmacOuter(H, c, pass, salt + BlockIndex(i), h, HashBlocks(c, H0, octx.absorbed));
  }

  /**
    The inner and outer states saved after the key blocks of pass (what
    `ictx.state` and `octx.state` hold throughout the main loop).
   */
  ghost predicate Saved(H: Hash, c: Compressor, pass: seq<byte>, si: seq<bv32>, so: seq<bv32>)
  {
    Digests(H, c) && |si| == 8 && |so| == 8 &&
    si == HashBlocks(c, H0, XorConst(KeyBlock(H, pass), 0x36)) &&
    so == HashBlocks(c, H0, XorConst(KeyBlock(H, pass), 0x5C))
  }

  /** The states of the two contexts, read once they hold the key blocks. */
  method SavedStates(ghost H: Hash, ghost c: Compressor, ghost pass: seq<byte>, ictx: Hasher, octx: Hasher)
    returns (si: seq<bv32>, so: seq<bv32>)
    requires Keyed(H, c, pass, ictx, octx)
    ensures Saved(H, c, pass, si, so)
  {
    KeyedState(ictx, c);
    KeyedState(octx, c);
    si, so := ictx.state[..], octx.state[..];
  }

  /**
    `memcpy(I, ictx.state, 32); sha256_block(I, block); sha256_serialize(I, out)`
    with block = u || Tail96(), the state memcpy'd from a saved context.
   */
  method ResumeState(ghost c: Compressor, s: seq<bv32>, u: seq<byte>) returns (v: seq<byte>)
    requires IsCompression(c) && |s| == 8 && |u| == 32
    ensures |v| == 32 && v == WordsBe(c(s, u + Tail96()))
  {
    var w := new bv32[8](k requires 0 <= k < 8 => s[k]);
    assert w[..] == s;
    BlockWith(w, u + Tail96(), c);
    v := Serialize(w);
  }

  /**
    U_{j+1} from U_j, the body of the `for (j = 1; j < iter; j++)` loop:
    I and O start from the saved states, I compresses iblock into oblock and
    O compresses oblock into iblock.
   */
  method NextU(ghost H: Hash, ghost c: Compressor, ghost pass: seq<byte>, u: seq<byte>, si: seq<bv32>, so: seq<bv32>)
    returns (v: seq<byte>)
    requires Saved(H, c, pass, si, so) && |u| == 32
    ensures v == HmacOf(H, pass, u)
  {
    var w := ResumeState(c, si, u);
    v := ResumeState(c, so, w);
    HmacShortcut(H, c, pass, u, si, so);
  }

  /** `memcpy(dk, iblock, len)` */
  method CopyOut(dk: array<byte>, off: nat, len: nat, u: seq<byte>)
    requires off + len <= dk.Length && len <= |u|
    modifies dk
    ensures forall t | 0 <= t < dk.Length && !(off <= t < off + len) :: dk[t] == old(dk[t])
    ensures forall k | 0 <= k < len :: dk[off + k] == u[k]
  {
    for k := 0 to len
      invariant forall t | 0 <= t < dk.Length && !(off <= t < off + k) :: dk[t] == old(dk[t])
      invariant forall k' | 0 <= k' < k :: dk[off + k'] == u[k']
    {
      dk[off + k] := u[k];
    }
  }

  /** `for (k = 0; k < len; k++) dk[k] ^= iblock[k];` */
  method XorInto(dk: array<byte>, off: nat, len: nat, u: seq<byte>)
    requires off + len <= dk.Length && len <= |u|
    modifies dk
    ensures forall t | 0 <= t < dk.Length && !(off <= t < off + len) :: dk[t] == old(dk[t])
    ensures forall k | 0 <= k < len :: dk[off + k] == XorByte(old(dk[off + k]), u[k])
  {
    for k := 0 to len
      invariant forall t | 0 <= t < dk.Length && !(off <= t < off + k) :: dk[t] == old(dk[t])
      invariant forall k' | 0 <= k' < k :: dk[off + k'] == XorByte(old(dk[off + k']), u[k'])
    {
      dk[off + k] := XorByte(dk[off + k], u[k]);
    }
  }

  /**
    One pass of the main loop: the bytes off .. off + len of the derived key,
    which are the first len bytes of T_i, written at dk[off..].
   */
  method DeriveBlock(ghost H: Hash, ghost c: Compressor, ghost prf: Prf, ghost pass: seq<byte>, salt: seq<byte>, iter: nat,
                     ghost dkLen: nat, i: nat, ictx: Hasher, octx: Hasher, dk: array<byte>, off: nat, len: nat)
    requires Keyed(H, c, pass, ictx, octx) && Outputs32(prf) && Computes(prf, H)
    requires i >= 1 && off == 32 * (i - 1) && off + len <= dk.Length && off + len <= dkLen && len <= 32
    modifies dk
    ensures forall t | 0 <= t < dk.Length && !(off <= t < off + len) :: dk[t] == old(dk[t])
    ensures forall t | off <= t < off + len :: dk[t] == Derive(prf, pass, salt, iter, dkLen)[t]
  {
    BlockF(H, c, prf, pass, salt, iter, i, ictx, octx, dk, off, len);
    DeriveChunk(prf, pass, salt, iter, dkLen, i, off, len);
  }

  /**
    The body of the main loop up to the end of the inner loop
    `for (j = 1; j < iter; j++)`: dk[off..off+len) receives the first len
    bytes of F(P, S, iter, i).
   */
  method BlockF(ghost H: Hash, ghost c: Compressor, ghost prf: Prf, ghost pass: seq<byte>, salt: seq<byte>, iter: nat,
                i: nat, ictx: Hasher, octx: Hasher, dk: array<byte>, off: nat, len: nat)
    requires Keyed(H, c, pass, ictx, octx) && Outputs32(prf) && Computes(prf, H)
    requires off + len <= dk.Length && len <= 32
    modifies dk
    ensures forall t | 0 <= t < dk.Length && !(off <= t < off + len) :: dk[t] == old(dk[t])
    ensures forall k | 0 <= k < len :: dk[off + k] == F(prf, pass, salt, iter, i)[k]
  {
    var u := FirstU(H, c, pass, salt, i, ictx, octx);
    assert u == U(prf, pass, salt, i, 1);
    var si, so := SavedStates(H, c, pass, ictx, octx);
    CopyOut(dk, off, len, u);
    IterateAll(H, c, prf, pass, salt, iter, i, u, si, so, dk, off, len);
  }

  /** The inner loop `for (j = 1; j < iter; j++)`: dk[off..off+len) goes from U_1 to F(P, S, iter, i). */
  method IterateAll(ghost H: Hash, ghost c: Compressor, ghost prf: Prf, ghost pass: seq<byte>, ghost salt: seq<byte>, iter: nat,
                    ghost i: nat, u1: seq<byte>, si: seq<bv32>, so: seq<bv32>, dk: array<byte>, off: nat, len: nat)
    requires Saved(H, c, pass, si, so) && Outputs32(prf) && Computes(prf, H)
    requires u1 == U(prf, pass, salt, i, 1) && off + len <= dk.Length && len <= 32
    requires forall k | 0 <= k < len :: dk[off + k] == u1[k]
    modifies dk
    ensures forall t | 0 <= t < dk.Length && !(off <= t < off + len) :: dk[t] == old(dk[t])
    ensures forall k | 0 <= k < len :: dk[off + k] == F(prf, pass, salt, iter, i)[k]
  {
    var u := u1;
    var j := 1;
    ghost var acc := F(prf, pass, salt, 1, i);
    while j < iter
      invariant 1 <= j && (j <= iter || j == 1) && u == U(prf, pass, salt, i, j) && acc == F(prf, pass, salt, j, i)
      invariant forall t | 0 <= t < dk.Length && !(off <= t < off + len) :: dk[t] == old(dk[t])
      invariant forall k | 0 <= k < len :: dk[off + k] == acc[k]
    {
      u := Iterate(H, c, prf, pass, salt, i, j, j + 1, u, si, so, dk, off, len);
      j := j + 1;
      acc := F(prf, pass, salt, j, i);
    }
    FirstCount(prf, pass, salt, iter, j, i);
  }

  /** The loop ends with j == iter, or with j == 1 when iter is 0 or 1; F is the same either way. */
  lemma FirstCount(prf: Prf, pass: seq<byte>, salt: seq<byte>, iter: nat, j: nat, i: nat)
    requires Outputs32(prf) && 1 <= j && (j <= iter || j == 1) && !(j < iter)
    ensures F(prf, pass, salt, j, i) == F(prf, pass, salt, iter, i)
  {
  }

  /** One iteration of the inner loop: U_{j+1} computed and exclusive-or'ed into dk[off..off+len). */
  method Iterate(ghost H: Hash, ghost c: Compressor, ghost prf: Prf, ghost pass: seq<byte>, ghost salt: seq<byte>, ghost i: nat,
                 ghost j: nat, ghost next: nat, u: seq<byte>, si: seq<bv32>, so: seq<bv32>, dk: array<byte>, off: nat, len: nat)
    returns (v: seq<byte>)
    requires Saved(H, c, pass, si, so) && Outputs32(prf) && Computes(prf, H)
    requires j >= 1 && next == j + 1 && u == U(prf, pass, salt, i, j)
    requires off + len <= dk.Length && len <= 32
    requires forall k | 0 <= k < len :: dk[off + k] == F(prf, pass, salt, j, i)[k]
    modifies dk
    ensures v == U(prf, pass, salt, i, next)
    ensures forall t | 0 <= t < dk.Length && !(off <= t < off + len) :: dk[t] == old(dk[t])
    ensures forall k | 0 <= k < len :: dk[off + k] == F(prf, pass, salt, next, i)[k]
  {
    v := NextU(H, c, pass, u, si, so);
    FStep(prf, pass, salt, i, j, next);
    XorInto(dk, off, len, v);
  }

  /** The main loop of pbkdf2_hmac_sha256 over the blocks of the derived key. */
  method DeriveKey(ghost H: Hash, ghost c: Compressor, ghost prf: Prf, ghost pass: seq<byte>, salt: seq<byte>, iter: nat,
                   ictx: Hasher, octx: Hasher, dk: array<byte>, dkLen: nat)
    requires Keyed(H, c, pass, ictx, octx) && Outputs32(prf) && Computes(prf, H)
    requires dkLen <= dk.Length
    modifies dk
    ensures forall t | 0 <= t < dkLen :: dk[t] == Derive(prf, pass, salt, iter, dkLen)[t]
    ensures forall t | dkLen <= t < dk.Length :: dk[t] == old(dk[t])
  {
    var i, off := 1, 0;
    while off < dkLen
      invariant off <= dkLen && i >= 1 && (off == 32 * (i - 1) || off == dkLen)
      invariant forall t | 0 <= t < off :: dk[t] == Derive(prf, pass, salt, iter, dkLen)[t]
      invariant forall t | dkLen <= t < dk.Length :: dk[t] == old(dk[t])
    {
      var len := if dkLen - off < 32 then dkLen - off else 32;
      DeriveBlock(H, c, prf, pass, salt, iter, dkLen, i, ictx, octx, dk, off, len);
      off, i := off + len, i + 1;
    }
  }

  /**
    pbkdf2_hmac_sha256 with a hash function H that every context computes:
    exactly dkLen bytes of dk receive the derived key, the rest is untouched.
   */
  method Pbkdf2HmacWith(ghost H: Hash, pass: seq<byte>, salt: seq<byte>, iter: nat, dk: array<byte>, dkLen: nat)
    requires Hashes32(H) && forall c | IsCompression(c) :: Digests(H, c)
    requires dkLen <= dk.Length
    modifies dk
    ensures forall t | 0 <= t < dkLen :: dk[t] == Derive(HmacPrf(H), pass, salt, iter, dkLen)[t]
    ensures forall t | dkLen <= t < dk.Length :: dk[t] == old(dk[t])
  {
    var kb := KeyBlockOf(pass, H);
    var ictx, octx := Prepare(kb);
    ghost var c := ictx.compress;
    assert IsCompression(c) && Digests(H, c);
    DeriveKey(H, c, HmacPrf(H), pass, salt, iter, ictx, octx, dk, dkLen);
  }

  /**
    `pbkdf2_hmac_sha256(pass, m, salt, n, iter, dk, dklen)`: exactly dkLen
    bytes of dk receive the derived key; the rest of dk is untouched.
   */
  method Pbkdf2HmacSha256(pass: seq<byte>, salt: seq<byte>, iter: nat, dk: array<byte>, dkLen: nat)
    requires dkLen <= dk.Length
    modifies dk
    ensures forall t | 0 <= t < dkLen :: dk[t] == Pbkdf2Sha256(pass, salt, iter, dkLen)[t]
    ensures forall t | dkLen <= t < dk.Length :: dk[t] == old(dk[t])
  {
    DigestLength();
    DigestDigests();
    Pbkdf2HmacWith(Digest, pass, salt, iter, dk, dkLen);
  }
}
