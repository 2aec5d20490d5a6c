/**
  The ChaCha20 stream cipher of crypto.c: the quarter round and the
  20-round block function (`chacha20_block`), the initial state and the
  keystream exclusive or (`chacha20_xor`), after RFC 8439 sections 2.1-2.4.

  The pure functions are the reference; the methods are the in-place
  computations of crypto.c, proved equal to them.
 */
module ChaCha20 {
  import opened Bytes

  /** ROL32 is the 32-bit left rotation of RFC 8439 section 2.1 ("<<<"). */
  lemma Rol32IsRotation(x: bv32)
    ensures Rol32(x, 16) == x.RotateLeft(16) && Rol32(x, 12) == x.RotateLeft(12)
    ensures Rol32(x, 8) == x.RotateLeft(8) && Rol32(x, 7) == x.RotateLeft(7)
  {
  }

  /** The quarter round on four words, RFC 8439 section 2.1. */
  function QuarterRoundWords(a: bv32, b: bv32, c: bv32, d: bv32): (bv32, bv32, bv32, bv32)
  {
    var a1 := Add32(a, b);   var d1 := Rol32(Xor32(d, a1), 16);
    var c1 := Add32(c, d1);  var b1 := Rol32(Xor32(b, c1), 12);
    var a2 := Add32(a1, b1); var d2 := Rol32(Xor32(d1, a2), 8);
    var c2 := Add32(c1, d2); var b2 := Rol32(Xor32(b1, c2), 7);
    (a2, b2, c2, d2)
  }

  /** The test vector of RFC 8439 section 2.1.1. */
  lemma QuarterRoundTestVector()
    ensures QuarterRoundWords(0x11111111, 0x01020304, 0x9b8d6f43, 0x01234567)
         == (0xea2a92f4, 0xcb1cf8ce, 0x4581472e, 0x5881c4bb)
  {
    var a1 := Add32(0x11111111, 0x01020304);
    assert a1 == 0x12131415;
    var d1 := Rol32(Xor32(0x01234567, a1), 16);
    var c1 := Add32(0x9b8d6f43, d1);
    var b1 := Rol32(Xor32(0x01020304, c1), 12);
    var a2 := Add32(a1, b1);
    var d2 := Rol32(Xor32(d1, a2), 8);
    var c2 := Add32(c1, d2);
    var b2 := Rol32(Xor32(b1, c2), 7);
  }

  predicate Lanes(a: nat, b: nat, c: nat, d: nat)
  {
    a < 16 && b < 16 && c < 16 && d < 16 &&
    a != b && a != c && a != d && b != c && b != d && c != d
  }

  /**
    The quarter round applied to words a, b, c, d of the state (RFC 8439
    section 2.2): those four words are replaced and every other word is kept.
   */
  function QuarterRound(x: seq<bv32>, a: nat, b: nat, c: nat, d: nat): (y: seq<bv32>)
    requires |x| == 16 && Lanes(a, b, c, d)
    ensures |y| == 16
    ensures forall i | 0 <= i < 16 && i != a && i != b && i != c && i != d :: y[i] == x[i]
  {
    var (a2, b2, c2, d2) := QuarterRoundWords(x[a], x[b], x[c], x[d]);
    x[a := a2][b := b2][c := c2][d := d2]
  }

  /** The eight quarter rounds of a double round: four columns, then four diagonals. */
  const Schedule: seq<(nat, nat, nat, nat)> :=
    [(0, 4, 8, 12), (1, 5, 9, 13), (2, 6, 10, 14), (3, 7, 11, 15),
     (0, 5, 10, 15), (1, 6, 11, 12), (2, 7, 8, 13), (3, 4, 9, 14)]

  /** The first `n` quarter rounds of the schedule. */
  function QuarterRounds(x: seq<bv32>, n: nat): (y: seq<bv32>)
    requires |x| == 16 && n <= 8
    ensures |y| == 16
  {
    if n == 0 then x
    else
      var (a, b, c, d) := Schedule[n - 1];
      QuarterRound(QuarterRounds(x, n - 1), a, b, c, d)
  }

  /** A column round followed by a diagonal round. */
  function DoubleRound(x: seq<bv32>): (y: seq<bv32>)
    requires |x| == 16
    ensures |y| == 16
  {
    QuarterRounds(x, 8)
  }

  /** `k` double rounds. */
  function Rounds(x: seq<bv32>, k: nat): (y: seq<bv32>)
    requires |x| == 16
    ensures |y| == 16
  {
    if k == 0 then x else DoubleRound(Rounds(x, k - 1))
  }

  /** The QR macro of `chacha20_block`, on the state array in place. */
  method QR(x: array<bv32>, a: nat, b: nat, c: nat, d: nat)
    requires x.Length == 16 && Lanes(a, b, c, d)
    modifies x
    ensures x[..] == QuarterRound(old(x[..]), a, b, c, d)
  {
    var xa, xb, xc, xd := x[a], x[b], x[c], x[d];
    xa := Add32(xa, xb); xd := Xor32(xd, xa); xd := Rol32(xd, 16);
    xc := Add32(xc, xd); xb := Xor32(xb, xc); xb := Rol32(xb, 12);
    xa := Add32(xa, xb); xd := Xor32(xd, xa); xd := Rol32(xd, 8);
    xc := Add32(xc, xd); xb := Xor32(xb, xc); xb := Rol32(xb, 7);
    ghost var y := x[..];
    assert (xa, xb, xc, xd) == QuarterRoundWords(y[a], y[b], y[c], y[d]);
    x[a], x[b], x[c], x[d] := xa, xb, xc, xd;
    QuarterRoundIs(y, x[..], a, b, c, d);
  }

  /** A state that differs from x exactly by the quarter round on a, b, c, d is QuarterRound(x, a, b, c, d). */
  lemma QuarterRoundIs(x: seq<bv32>, y: seq<bv32>, a: nat, b: nat, c: nat, d: nat)
    requires |x| == 16 && |y| == 16 && Lanes(a, b, c, d)
    requires (y[a], y[b], y[c], y[d]) == QuarterRoundWords(x[a], x[b], x[c], x[d])
    requires forall i | 0 <= i < 16 && i != a && i != b && i != c && i != d :: y[i] == x[i]
    ensures y == QuarterRound(x, a, b, c, d)
  {
    var (a2, b2, c2, d2) := QuarterRoundWords(x[a], x[b], x[c], x[d]);
    var z := x[a := a2][b := b2][c := c2][d := d2];
    forall i | 0 <= i < 16
      ensures y[i] == z[i]
    {
      if i == d {
      } else if i == c {
      } else if i == b {
      } else if i == a {
      } else {
        assert z[i] == x[i];
      }
    }
    assert y == z;
  }

  /**
    `chacha20_block`: ten double rounds on the state, in place. The final
    addition of the input state is left to the caller, as in crypto.c.
   */
  method Block(x: array<bv32>)
    requires x.Length == 16
    modifies x
    ensures x[..] == Rounds(old(x[..]), 10)
  {
    for i := 0 to 10
      invariant x[..] == Rounds(old(x[..]), i)
    {
      ghost var y := x[..];
      ColumnRound(x);
      DiagonalRound(x, y);
    }
  }

  /** The four column quarter rounds of a double round, in place. */
  method ColumnRound(x: array<bv32>)
    requires x.Length == 16
    modifies x
    ensures x[..] == QuarterRounds(old(x[..]), 4)
  {
    ghost var y := x[..];
    QR(x, 0, 4, 8, 12);
    assert x[..] == QuarterRounds(y, 1);
    QR(x, 1, 5, 9, 13);
    assert x[..] == QuarterRounds(y, 2);
    QR(x, 2, 6, 10, 14);
    assert x[..] == QuarterRounds(y, 3);
    QR(x, 3, 7, 11, 15);
  }

  /** The four diagonal quarter rounds that complete the double round of y, in place. */
  method DiagonalRound(x: array<bv32>, ghost y: seq<bv32>)
    requires x.Length == 16 && |y| == 16 && x[..] == QuarterRounds(y, 4)
    modifies x
    ensures x[..] == DoubleRound(y)
  {
    QR(x, 0, 5, 10, 15);
    assert x[..] == QuarterRounds(y, 5);
    QR(x, 1, 6, 11, 12);
    assert x[..] == QuarterRounds(y, 6);
    QR(x, 2, 7, 8, 13);
    assert x[..] == QuarterRounds(y, 7);
    QR(x, 3, 4, 9, 14);
  }

  /** The four constant words 'expa', 'nd 3', '2-by', 'te k'. */
  const Sigma: seq<bv32> := [0x61707865, 0x3320646e, 0x79622d32, 0x6b206574]

  /** The constants are the ASCII text "expand 32-byte k" read little-endian. */
  lemma SigmaIsExpand32ByteK()
    ensures var t: seq<byte> := [0x65, 0x78, 0x70, 0x61, 0x6e, 0x64, 0x20, 0x33,
                                 0x32, 0x2d, 0x62, 0x79, 0x74, 0x65, 0x20, 0x6b];
      Sigma == [Load32Le(t, 0), Load32Le(t, 4), Load32Le(t, 8), Load32Le(t, 12)]
  {
  }

  /**
    The initial state of RFC 8439 section 2.3: the constants, the key read
    little-endian, the block counter and the nonce read little-endian.
   */
  function InitState(key: seq<byte>, nonce: seq<byte>, counter: bv32): (s: seq<bv32>)
    requires |key| == 32 && |nonce| == 12
    ensures |s| == 16
  {
    Sigma
    + seq(8, i requires 0 <= i < 8 => Load32Le(key, 4 * i))
    + [counter]
    + seq(3, i requires 0 <= i < 3 => Load32Le(nonce, 4 * i))
  }

  /** The output words of the block function: the rounds added to the input. */
  function BlockWords(key: seq<byte>, nonce: seq<byte>, counter: bv32): (w: seq<bv32>)
    requires |key| == 32 && |nonce| == 12
    ensures |w| == 16
  {
    var s := InitState(key, nonce, counter);
    var r := Rounds(s, 10);
    seq(16, i requires 0 <= i < 16 => Add32(r[i], s[i]))
  }

  /** Words serialised little-endian, one after the other. */
  function WordsLe(w: seq<bv32>): (b: seq<byte>)
    ensures |b| == 4 * |w|
  {
    if w == [] then [] else Store32Le(w[0]) + WordsLe(w[1..])
  }

  /** Byte 4i+k of the serialisation is byte k of word i. */
  lemma {:induction false} WordsLeByte(w: seq<bv32>, i: nat, k: nat)
    requires i < |w| && k < 4
    ensures WordsLe(w)[4 * i + k] == Store32Le(w[i])[k]
  {
    if i > 0 {
      WordsLeByte(w[1..], i - 1, k);
    }
  }

  /** The 64-byte keystream block for one counter value. */
  function KeystreamBlock(key: seq<byte>, nonce: seq<byte>, counter: bv32): (ks: seq<byte>)
    requires |key| == 32 && |nonce| == 12
    ensures |ks| == 64
  {
    WordsLe(BlockWords(key, nonce, counter))
  }

  /** The block function for one key and nonce, as a function of the block counter. */
  function Keystream(key: seq<byte>, nonce: seq<byte>): (ks: bv32 -> seq<byte>)
    requires |key| == 32 && |nonce| == 12
    ensures forall c :: |ks(c)| == 64
  {
    c => KeystreamBlock(key, nonce, c)
  }

  /**
    Counter-mode exclusive or with the block function `ks`, the way
    `chacha20_xor` walks the data: while more than 64 bytes remain a whole
    block is used and the counter moves on (wrapping at 2^32, `state[12]++`);
    the last 0 to 64 bytes use a prefix of one more block.
   */
  function XorWith(data: seq<byte>, ks: bv32 -> seq<byte>, counter: bv32): (r: seq<byte>)
    requires forall c :: |ks(c)| == 64
    ensures |r| == |data|
    decreases |data|
  {
    if |data| <= 64 then XorBytes(data, ks(counter))
    else XorBytes(data[..64], ks(counter)) + XorWith(data[64..], ks, Add32(counter, 1))
  }

  /** `chacha20_xor(data, |data|, key, nonce, counter)` */
  function Xor(data: seq<byte>, key: seq<byte>, nonce: seq<byte>, counter: bv32): (r: seq<byte>)
    requires |key| == 32 && |nonce| == 12
    ensures |r| == |data|
  {
    XorWith(data, Keystream(key, nonce), counter)
  }

  /** The counter of the j-th block after `counter`, wrapping at 2^32. */
  function CounterAt(counter: bv32, j: nat): bv32
    decreases j
  {
    if j == 0 then counter else Add32(CounterAt(counter, j - 1), 1)
  }

  /** Starting one block later is the same as counting one more block. */
  lemma {:induction false} CounterAtShift(counter: bv32, j: nat)
    ensures CounterAt(Add32(counter, 1), j) == CounterAt(counter, j + 1)
  {
    if j > 0 {
      CounterAtShift(counter, j - 1);
    }
  }

  /**
    Byte j of the keystream of RFC 8439 section 2.4: byte j % 64 of the block
    whose counter is j / 64 blocks after the initial one.
   */
  function KeystreamByte(key: seq<byte>, nonce: seq<byte>, counter: bv32, j: nat): byte
    requires |key| == 32 && |nonce| == 12
  {
    KeystreamBlock(key, nonce, CounterAt(counter, j / 64))[j % 64]
  }

  lemma DivMod4(i: nat, k: nat)
    requires k < 4
    ensures (4 * i + k) / 4 == i && (4 * i + k) % 4 == k
  {
  }

  /** Byte 64b+t of the result uses byte t of the block for the b-th counter. */
  lemma {:induction false} XorWithBlockByte(data: seq<byte>, ks: bv32 -> seq<byte>, counter: bv32, b: nat, t: nat)
    requires forall c :: |ks(c)| == 64
    requires t < 64 && 64 * b + t < |data|
    ensures XorWith(data, ks, counter)[64 * b + t] == XorByte(data[64 * b + t], ks(CounterAt(counter, b))[t])
    decreases b
  {
    if b > 0 {
      var tail := XorWith(data[64..], ks, Add32(counter, 1));
      assert XorWith(data, ks, counter) == XorBytes(data[..64], ks(counter)) + tail;
      XorWithBlockByte(data[64..], ks, Add32(counter, 1), b - 1, t);
      CounterAtShift(counter, b - 1);
      assert tail[64 * (b - 1) + t] == XorByte(data[64 * b + t], ks(CounterAt(counter, b))[t]);
    }
  }

  /** Byte 64b+t of the encryption uses byte t of the b-th keystream block. */
  lemma XorBlockByte(data: seq<byte>, key: seq<byte>, nonce: seq<byte>, counter: bv32, b: nat, t: nat)
    requires |key| == 32 && |nonce| == 12 && t < 64 && 64 * b + t < |data|
    ensures Xor(data, key, nonce, counter)[64 * b + t]
         == XorByte(data[64 * b + t], KeystreamBlock(key, nonce, CounterAt(counter, b))[t])
  {
    XorWithBlockByte(data, Keystream(key, nonce), counter, b, t);
  }

  /**
    The block-by-block computation agrees with RFC 8439: byte j of the data
    is exclusive-or'ed with byte j of the keystream.
   */
  lemma XorIsKeystreamXor(data: seq<byte>, key: seq<byte>, nonce: seq<byte>, counter: bv32, j: nat)
    requires |key| == 32 && |nonce| == 12 && j < |data|
    ensures Xor(data, key, nonce, counter)[j] == XorByte(data[j], KeystreamByte(key, nonce, counter, j))
  {
    var b, t := j / 64, j % 64;
    assert j == 64 * b + t;
    XorBlockByte(data, key, nonce, counter, b, t);
  }

  lemma XorByteTwice(a: byte, b: byte)
    ensures XorByte(XorByte(a, b), b) == a
  {
  }

  /** Exclusive or with the same bytes twice gives the data back. */
  lemma XorBytesTwice(a: seq<byte>, b: seq<byte>)
    requires |a| <= |b|
    ensures XorBytes(XorBytes(a, b), b) == a
  {
    forall i | 0 <= i < |a|
      ensures XorBytes(XorBytes(a, b), b)[i] == a[i]
    {
      XorByteTwice(a[i], b[i]);
    }
  }

  /** Counter-mode exclusive or with the same blocks twice gives the data back. */
  lemma {:induction false} XorWithTwice(data: seq<byte>, ks: bv32 -> seq<byte>, counter: bv32)
    requires forall c :: |ks(c)| == 64
    ensures XorWith(XorWith(data, ks, counter), ks, counter) == data
    decreases |data|
  {
    var e := XorWith(data, ks, counter);
    if |data| <= 64 {
      XorBytesTwice(data, ks(counter));
    } else {
      var head := XorBytes(data[..64], ks(counter));
      var tail := XorWith(data[64..], ks, Add32(counter, 1));
      assert e == head + tail;
      SplitAt(e, head, tail);
      XorBytesTwice(data[..64], ks(counter));
      XorWithTwice(data[64..], ks, Add32(counter, 1));
      assert data[..64] + data[64..] == data;
    }
  }

  /** Encrypting twice with the same key, nonce and counter gives the data back. */
  lemma XorInvolution(data: seq<byte>, key: seq<byte>, nonce: seq<byte>, counter: bv32)
    requires |key| == 32 && |nonce| == 12
    ensures Xor(Xor(data, key, nonce, counter), key, nonce, counter) == data
  {
    XorWithTwice(data, Keystream(key, nonce), counter);
  }

  /**
    Byte j of a decryption depends only on byte j of its input: where the
    input agrees with an encryption of `data`, the output is `data`.
   */
  lemma XorWithUndoesAt(cipher: seq<byte>, data: seq<byte>, ks: bv32 -> seq<byte>, counter: bv32, j: nat)
    requires forall c :: |ks(c)| == 64
    requires j < |data| == |cipher|
    requires cipher[j] == XorWith(data, ks, counter)[j]
    ensures XorWith(cipher, ks, counter)[j] == data[j]
  {
    var b, t := j / 64, j % 64;
    assert j == 64 * b + t;
    XorWithBlockByte(cipher, ks, counter, b, t);
    XorWithBlockByte(data, ks, counter, b, t);
    XorByteTwice(data[j], ks(CounterAt(counter, b))[t]);
  }

  /** Decrypting a suffix that agrees with an encryption of `data` gives that suffix of `data` back. */
  lemma XorWithUndoesFrom(cipher: seq<byte>, data: seq<byte>, ks: bv32 -> seq<byte>, counter: bv32, k: nat)
    requires forall c :: |ks(c)| == 64
    requires k <= |data| == |cipher|
    requires cipher[k..] == XorWith(data, ks, counter)[k..]
    ensures XorWith(cipher, ks, counter)[k..] == data[k..]
  {
    forall j | k <= j < |data|
      ensures XorWith(cipher, ks, counter)[j] == data[j]
    {
      assert cipher[j] == cipher[k..][j - k];
      XorWithUndoesAt(cipher, data, ks, counter, j);
    }
  }

  /** A sequence cut after its first part gives back the two parts. */
  lemma SplitAt<T>(s: seq<T>, head: seq<T>, tail: seq<T>)
    requires s == head + tail
    ensures s[..|head|] == head && s[|head|..] == tail
  {
  }

  /** Encrypting a prefix of the data gives the prefix of the whole encryption. */
  lemma XorPrefix(data: seq<byte>, m: nat, key: seq<byte>, nonce: seq<byte>, counter: bv32)
    requires |key| == 32 && |nonce| == 12 && m <= |data|
    ensures Xor(data[..m], key, nonce, counter) == Xor(data, key, nonce, counter)[..m]
  {
    forall j | 0 <= j < m
      ensures Xor(data[..m], key, nonce, counter)[j] == Xor(data, key, nonce, counter)[j]
    {
      XorIsKeystreamXor(data[..m], key, nonce, counter, j);
      XorIsKeystreamXor(data, key, nonce, counter, j);
    }
  }

  /** Incrementing word 12 (`state[12]++`) moves the state to the next block counter. */
  lemma InitStateNext(key: seq<byte>, nonce: seq<byte>, c: bv32)
    requires |key| == 32 && |nonce| == 12
    ensures InitState(key, nonce, c)[12 := Add32(c, 1)] == InitState(key, nonce, Add32(c, 1))
  {
  }

  /** copy the 16 words of `src` into `dst` (`for (i...) block.words[i] = state[i]`) */
  method CopyWords(src: array<bv32>, dst: array<bv32>)
    requires src.Length == 16 && dst.Length == 16 && src != dst
    modifies dst
    ensures dst[..] == src[..]
  {
    for i := 0 to 16
      invariant dst[..i] == src[..i]
    {
      dst[i] := src[i];
    }
  }

  /**
    `block.words[i] ^= LOAD32_LE(buf); STORE32_LE(buf, block.words[i])` at
    byte `q`: the four bytes are exclusive-or'ed with the bytes of `w`.
   */
  method XorWord(buf: array<byte>, q: nat, w: bv32) returns (x: bv32)
    requires q + 4 <= buf.Length
    modifies buf
    ensures forall j | 0 <= j < buf.Length && !(q <= j < q + 4) :: buf[j] == old(buf[j])
    ensures forall k | 0 <= k < 4 :: buf[q + k] == XorByte(old(buf[q + k]), Store32Le(w)[k])
  {
    ghost var s := buf[..];
    x := Xor32(w, Load32Le(buf[..], q));
    StoreWord(buf, q, x);
    Store32LeXor(w, s, q);
  }

  /**
    The inner loop of a full block: each output word (the rounds in `block`
    plus the input `state`) is exclusive-or'ed into the next four bytes of `buf`.
   */
  method XorFullBlock(buf: array<byte>, p: nat, block: array<bv32>, state: array<bv32>, ghost words: seq<bv32>)
    requires p + 64 <= buf.Length && block.Length == 16 && state.Length == 16 && block != state
    requires |words| == 16 && forall i | 0 <= i < 16 :: words[i] == Add32(block[i], state[i])
    modifies buf, block
    ensures forall j | 0 <= j < buf.Length && !(p <= j < p + 64) :: buf[j] == old(buf[j])
    ensures forall i, k | 0 <= i < 16 && 0 <= k < 4 ::
      buf[p + 4 * i + k] == XorByte(old(buf[p + 4 * i + k]), Store32Le(words[i])[k])
  {
    for n := 0 to 16
      invariant forall i | n <= i < 16 :: words[i] == Add32(block[i], state[i])
      invariant forall j | 0 <= j < buf.Length && !(p <= j < p + 4 * n) :: buf[j] == old(buf[j])
      invariant forall i, k | 0 <= i < n && 0 <= k < 4 ::
        buf[p + 4 * i + k] == XorByte(old(buf[p + 4 * i + k]), Store32Le(words[i])[k])
    {
      block[n] := XorWord(buf, p + 4 * n, Add32(block[n], state[n]));
    }
  }

  /** `STORE32_LE(&bytes[q], w)` */
  method StoreWord(bytes: array<byte>, q: nat, w: bv32)
    requires q + 4 <= bytes.Length
    modifies bytes
    ensures forall j | 0 <= j < bytes.Length && !(q <= j < q + 4) :: bytes[j] == old(bytes[j])
    ensures forall k | 0 <= k < 4 :: bytes[q + k] == Store32Le(w)[k]
  {
    var v := Store32Le(w);
    bytes[q] := v[0];
    bytes[q + 1] := v[1];
    bytes[q + 2] := v[2];
    bytes[q + 3] := v[3];
  }

  /**
    The last block: `state` (holding the rounds) gets the input words of
    `block` added, and every word is stored little-endian into `bytes`.
   */
  method AddAndStore(state: array<bv32>, block: array<bv32>) returns (bytes: array<byte>)
    requires state.Length == 16 && block.Length == 16 && state != block
    modifies state
    ensures fresh(bytes) && bytes.Length == 64
    ensures forall i | 0 <= i < 16 :: state[i] == Add32(old(state[i]), block[i])
    ensures bytes[..] == WordsLe(state[..])
  {
    bytes := new byte[64];
    for n := 0 to 16
      invariant forall i | 0 <= i < n :: state[i] == Add32(old(state[i]), block[i])
      invariant forall i | n <= i < 16 :: state[i] == old(state[i])
      invariant forall i, k | 0 <= i < n && 0 <= k < 4 :: bytes[4 * i + k] == Store32Le(state[i])[k]
    {
      state[n] := Add32(state[n], block[n]);
      StoreWord(bytes, 4 * n, state[n]);
    }
    WordsBytes(bytes[..], state[..]);
  }

  /** Sixteen words stored byte by byte, little-endian, are their serialisation. */
  lemma WordsBytes(b: seq<byte>, w: seq<bv32>)
    requires |b| == 64 && |w| == 16
    requires forall i, k | 0 <= i < 16 && 0 <= k < 4 :: b[4 * i + k] == Store32Le(w[i])[k]
    ensures b == WordsLe(w)
  {
    forall t | 0 <= t < 64
      ensures b[t] == WordsLe(w)[t]
    {
      var i, k := t / 4, t % 4;
      assert t == 4 * i + k;
      WordsLeByte(w, i, k);
    }
  }

  /** `for (i = 0; i < n; i++) buf[i] ^= block.bytes[i]` */
  method XorTail(buf: array<byte>, p: nat, m: nat, bytes: array<byte>)
    requires p + m <= buf.Length && m <= bytes.Length && buf != bytes
    modifies buf
    ensures forall j | 0 <= j < buf.Length && !(p <= j < p + m) :: buf[j] == old(buf[j])
    ensures forall t | 0 <= t < m :: buf[p + t] == XorByte(old(buf[p + t]), bytes[t])
  {
    for i := 0 to m
      invariant forall j | 0 <= j < buf.Length && !(p <= j < p + i) :: buf[j] == old(buf[j])
      invariant forall t | 0 <= t < i :: buf[p + t] == XorByte(old(buf[p + t]), bytes[t])
    {
      buf[p + i] := XorByte(buf[p + i], bytes[i]);
    }
  }

  /**
    One pass of the `while (n > 64)` loop: the block for the counter c held
    in `state` is exclusive-or'ed into the 64 bytes at p.
   */
  method FullBlock(buf: array<byte>, p: nat, state: array<bv32>, block: array<bv32>,
                   key: seq<byte>, nonce: seq<byte>, ghost c: bv32, ghost before: seq<byte>)
    requires |key| == 32 && |nonce| == 12 && state.Length == 16 && block.Length == 16 && state != block
    requires p + 64 <= buf.Length && state[..] == InitState(key, nonce, c) && before == buf[..]
    modifies buf, block
    ensures forall j | 0 <= j < buf.Length && !(p <= j < p + 64) :: buf[j] == before[j]
    ensures forall t | 0 <= t < 64 :: buf[p + t] == XorByte(before[p + t], KeystreamBlock(key, nonce, c)[t])
  {
    CopyWords(state, block);
    Block(block);
    ghost var words := BlockWords(key, nonce, c);
    XorFullBlock(buf, p, block, state, words);
    XoredWithWords(buf, before, p, words);
  }

  /** The word-by-word exclusive or of XorFullBlock is the byte-wise one with WordsLe(words). */
  lemma XoredWithWords(buf: array<byte>, before: seq<byte>, p: nat, words: seq<bv32>)
    requires |words| == 16 && p + 64 <= buf.Length && |before| == buf.Length
    requires forall i, k | 0 <= i < 16 && 0 <= k < 4 ::
      buf[p + 4 * i + k] == XorByte(before[p + 4 * i + k], Store32Le(words[i])[k])
    ensures forall t | 0 <= t < 64 :: buf[p + t] == XorByte(before[p + t], WordsLe(words)[t])
  {
    forall t | 0 <= t < 64
      ensures buf[p + t] == XorByte(before[p + t], WordsLe(words)[t])
    {
      var i, k := t / 4, t % 4;
      assert t == 4 * i + k;
      WordsLeByte(words, i, k);
    }
  }

  /**
    After the loop: the block for the counter c held in `state` is
    exclusive-or'ed into the last m <= 64 bytes at p.
   */
  method LastBlock(buf: array<byte>, p: nat, m: nat, state: array<bv32>, block: array<bv32>,
                   key: seq<byte>, nonce: seq<byte>, ghost c: bv32, ghost before: seq<byte>)
    requires |key| == 32 && |nonce| == 12 && state.Length == 16 && block.Length == 16 && state != block
    requires p + m <= buf.Length && m <= 64 && state[..] == InitState(key, nonce, c) && before == buf[..]
    modifies buf, state, block
    ensures forall j | 0 <= j < buf.Length && !(p <= j < p + m) :: buf[j] == before[j]
    ensures forall t | 0 <= t < m :: buf[p + t] == XorByte(before[p + t], KeystreamBlock(key, nonce, c)[t])
  {
    CopyWords(state, block);
    Block(state);
    var bytes := AddAndStore(state, block);
    assert bytes[..] == KeystreamBlock(key, nonce, c) by {
      assert state[..] == BlockWords(key, nonce, c);
    }
    XorTail(buf, p, m, bytes);
  }

  /** The `state[0..15] = ...` assignments at the top of `chacha20_xor`. */
  method NewState(key: seq<byte>, nonce: seq<byte>, counter: bv32) returns (state: array<bv32>)
    requires |key| == 32 && |nonce| == 12
    ensures fresh(state) && state[..] == InitState(key, nonce, counter)
  {
    var init := InitState(key, nonce, counter);
    state := new bv32[16](i requires 0 <= i < 16 => init[i]);
  }

  /**
    `chacha20_xor(buf + off, n, key, nonce, counter)`: full blocks while more
    than 64 bytes remain, word by word, then the last block byte by byte.
   */
  method XorInPlace(buf: array<byte>, off: nat, n: nat, key: seq<byte>, nonce: seq<byte>, counter: bv32)
    requires off + n <= buf.Length && |key| == 32 && |nonce| == 12
    modifies buf
    ensures buf[..] == old(buf[..off]) + Xor(old(buf[off..off + n]), key, nonce, counter) + old(buf[off + n..])
  {
    var state := NewState(key, nonce, counter);
    var block := new bv32[16];
    var p: nat, m: nat := off, n;
    ghost var b: nat := 0;
    ghost var data := buf[off..off + n];
    ghost var x := Xor(data, key, nonce, counter);
    while m > 64
      invariant off <= p && p + m == off + n && p == off + 64 * b
      invariant state[..] == InitState(key, nonce, CounterAt(counter, b))
      invariant forall j | 0 <= j < buf.Length && !(off <= j < p) :: buf[j] == old(buf[j])
      invariant forall j | off <= j < p :: buf[j] == x[j - off]
    {
      ghost var before := buf[..];
      FullBlock(buf, p, state, block, key, nonce, CounterAt(counter, b), before);
      BlockToXor(buf, before, p, 64, data, off, b, key, nonce, counter);
      InitStateNext(key, nonce, CounterAt(counter, b));
      state[12] := Add32(state[12], 1);
      p, m := p + 64, m - 64;
      b := b + 1;
    }
    ghost var before := buf[..];
    LastBlock(buf, p, m, state, block, key, nonce, CounterAt(counter, b), before);
    BlockToXor(buf, before, p, m, data, off, b, key, nonce, counter);
    Splice(old(buf[..]), buf[..], off, n, x);
  }

  /**
    The bytes at p..p+len, which are bytes 64b.. of `data`, have been
    exclusive-or'ed with the keystream block of the b-th counter: they now
    hold the encryption of those bytes of `data`.
   */
  lemma BlockToXor(buf: array<byte>, before: seq<byte>, p: nat, len: nat, data: seq<byte>, off: nat, b: nat,
                   key: seq<byte>, nonce: seq<byte>, counter: bv32)
    requires |key| == 32 && |nonce| == 12 && len <= 64 && p == off + 64 * b
    requires p + len <= buf.Length && p + len <= |before| && p - off + len <= |data|
    requires forall t | 0 <= t < len :: buf[p + t] == XorByte(before[p + t], KeystreamBlock(key, nonce, CounterAt(counter, b))[t])
    requires forall j | p <= j < p + len :: before[j] == data[j - off]
    ensures forall j | p <= j < p + len :: buf[j] == Xor(data, key, nonce, counter)[j - off]
  {
    forall j | p <= j < p + len
      ensures buf[j] == Xor(data, key, nonce, counter)[j - off]
    {
      assert buf[p + (j - p)] == XorByte(before[j], KeystreamBlock(key, nonce, CounterAt(counter, b))[j - p]);
      XorBlockByte(data, key, nonce, counter, b, j - p);
    }
  }

  /** The buffer is its untouched prefix, the encrypted range and its untouched suffix. */
  lemma Splice(before: seq<byte>, after: seq<byte>, off: nat, n: nat, mid: seq<byte>)
    requires off + n <= |before| == |after| && |mid| == n
    requires forall j | 0 <= j < |after| && !(off <= j < off + n) :: after[j] == before[j]
    requires forall j | off <= j < off + n :: after[j] == mid[j - off]
    ensures after == before[..off] + mid + before[off + n..]
  {
    var rhs := before[..off] + mid + before[off + n..];
    forall j | 0 <= j < |after|
      ensures after[j] == rhs[j]
    {
      if j < off {
      } else if j < off + n {
        assert rhs[j] == mid[j - off];
      } else {
        assert rhs[j] == before[off + n..][j - off - n];
      }
    }
  }
}
