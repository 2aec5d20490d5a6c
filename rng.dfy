/**
  chacha20_rng in crypto.c: a ChaCha20 keystream generator with a 64-byte
  buffer. The key and nonce come from the operating system's entropy source
  whenever the 32-bit block counter is zero (at the first call and after it
  wraps); every refill exclusive-ors the next keystream block into the
  buffer, which is then served from its unread tail.

  Entropy is an oracle: a sequence of draws, one per call of `entropy()`,
  each the bytes the system returned. A draw of the wrong length makes the
  source call abort(); here the operation then reports failure.
 */
module ChaChaRng {
  import opened Bytes
  import opened ChaCha20

  /** The answers the entropy source will give, in order. */
  type Draws = seq<seq<byte>>

  /** The static variables of chacha20_rng: key, nonce, buffer, counter and available. */
  datatype RngState = RngState(key: seq<byte>, nonce: seq<byte>, buffer: seq<byte>, counter: bv32, available: nat)

  predicate Good(s: RngState)
  {
    |s.key| == 32 && |s.nonce| == 12 && |s.buffer| == 64 && s.available <= 64
  }

  /** Bytes handed out, the generator's state afterwards and the entropy not yet drawn. */
  datatype Served = Served(out: seq<byte>, state: RngState, rest: Draws)

  /** A cipher as a value: data, key, nonce and block counter to the data exclusive-ored with the keystream. */
  type Cipher = (seq<byte>, seq<byte>, seq<byte>, bv32) -> seq<byte>

  /** `chacha20_xor` as a total function value. */
  function ChaChaXor(): (x: Cipher)
    ensures IsChaChaXor(x)
  {
    (b: seq<byte>, k: seq<byte>, n: seq<byte>, c: bv32) => if |k| == 32 && |n| == 12 then Xor(b, k, n, c) else b
  }

  /**
    x keeps lengths and is chacha20_xor wherever key and nonce have their
    sizes. The specifications below are stated over such an x so that they
    do not unfold the block function.
   */
  ghost predicate IsChaChaXor(x: Cipher)
  {
    (forall b, k, n, c :: |x(b, k, n, c)| == |b|) &&
    forall b, k, n, c {:trigger Xor(b, k, n, c)} | |k| == 32 && |n| == 12 :: x(b, k, n, c) == Xor(b, k, n, c)
  }

  /** The ciphers the specifications below may be given: chacha20_xor on every block they encrypt. */
  type ChaChaCipher = x: Cipher | IsChaChaXor(x) ghost witness ChaChaXor()

  /** The static initialisers: everything zero. */
  function Initial(): (s: RngState)
    ensures Good(s)
  {
    RngState(Zeros(32), Zeros(12), Zeros(64), 0, 0)
  }

  /** One call of `entropy()`: the next draw, or nothing once the source is exhausted. */
  function NextDraw(d: Draws): (seq<byte>, Draws)
  {
    if d == [] then ([], []) else (d[0], d[1..])
  }

  /** `chacha20_xor(buffer, 64, key, nonce, counter++); available = 64;` */
  ghost function NewBlock(x: ChaChaCipher, s: RngState): (r: RngState)
    requires Good(s)
    ensures Good(r) && r.available == 64
  {
    s.(buffer := x(s.buffer, s.key, s.nonce, s.counter), counter := Add32(s.counter, 1), available := 64)
  }

  /**
    The `available == 0` branch: when the counter is zero a fresh key and
    nonce are drawn first, and a short draw aborts.
   */
  ghost function Refill(x: ChaChaCipher, s: RngState, d: Draws): (r: Option<(RngState, Draws)>)
    requires Good(s)
    ensures r.Some? ==> Good(r.value.0) && r.value.0.available == 64
  {
    if s.counter != 0 then Some((NewBlock(x, s), d))
    else
      var (k, d1) := NextDraw(d);
      if |k| != 32 then None
      else
        var (nc, d2) := NextDraw(d1);
        if |nc| != 12 then None
        else Some((NewBlock(x, s.(key := k, nonce := nc)), d2))
  }

  /** chunk in front of the bytes of a result; a failure stays a failure. */
  function Prepend(chunk: seq<byte>, r: Option<Served>): (p: Option<Served>)
  {
    if r.None? then None else Some(r.value.(out := chunk + r.value.out))
  }

  function Min(a: nat, b: nat): nat
  {
    if a < b then a else b
  }

  /** The copy out of the buffer: up to n of the `available` unread bytes at its end. */
  function Take(s: RngState, n: nat): (r: (seq<byte>, RngState))
    requires Good(s) && 0 < s.available
    ensures |r.0| == Min(s.available, n) && r.1 == s.(available := s.available - |r.0|)
  {
    var m := Min(s.available, n);
    (s.buffer[64 - s.available..64 - s.available + m], s.(available := s.available - m))
  }

  /** Two copies in a row, the first leaving bytes unread, take what one larger copy takes. */
  lemma TakeSplit(s: RngState, n1: nat, n2: nat)
    requires Good(s) && 0 < n1 < s.available
    ensures var (c1, s1) := Take(s, n1); var (c2, s2) := Take(s1, n2);
      Take(s, n1 + n2) == (c1 + c2, s2)
  {
    var p := 64 - s.available;
    var (c1, s1) := Take(s, n1);
    var (c2, s2) := Take(s1, n2);
    assert c1 + c2 == s.buffer[p..p + n1 + |c2|];
  }

  /** The bytes of `chacha20_rng(out, n)` from state s with entropy d. */
  ghost function Generate(x: ChaChaCipher, s: RngState, d: Draws, n: nat): (r: Option<Served>)
    requires Good(s)
    ensures r.Some? ==> |r.value.out| == n && Good(r.value.state)
    decreases n, if s.available == 0 then 1 else 0
  {
    if n == 0 then Some(Served([], s, d))
    else if s.available == 0 then
      match Refill(x, s, d)
      case None => None
      case Some((s1, d1)) => Generate(x, s1, d1, n)
    else
      var (chunk, s1) := Take(s, n);
      Prepend(chunk, Generate(x, s1, d, n - |chunk|))
  }

  /** The result of asking for n more bytes after r. */
  ghost function Then(x: ChaChaCipher, r: Option<Served>, n: nat): Option<Served>
    requires (r.Some? ==> Good(r.value.state))
  {
    if r.None? then None else Prepend(r.value.out, Generate(x, r.value.state, r.value.rest, n))
  }

  lemma PrependTwice(a: seq<byte>, b: seq<byte>, r: Option<Served>)
    ensures Prepend(a, Prepend(b, r)) == Prepend(a + b, r)
  {
    if r.Some? {
      assert a + (b + r.value.out) == a + b + r.value.out;
    }
  }

  lemma PrependNothing(r: Option<Served>)
    ensures Prepend([], r) == r
  {
    if r.Some? {
      assert [] + r.value.out == r.value.out;
    }
  }

  /**
    The generator is a stream: asking for n1 + n2 bytes at once gives the
    same bytes, the same state and the same remaining entropy as asking for
    n1 bytes and then n2 more, including when either request aborts.
   */
  lemma {:induction false} GenerateSplit(x: ChaChaCipher, s: RngState, d: Draws, n1: nat, n2: nat)
    requires Good(s)
    ensures Generate(x, s, d, n1 + n2) == Then(x, Generate(x, s, d, n1), n2)
    decreases n1, if s.available == 0 then 1 else 0, 1
  {
    if n2 == 0 {
      assert n1 + n2 == n1;
      ThenNothing(x, Generate(x, s, d, n1));
    } else if n1 == 0 {
      assert n1 + n2 == n2;
      PrependNothing(Generate(x, s, d, n2));
    } else if s.available == 0 {
      RefillSplit(x, s, d, n1, n2);
    } else if s.available < n1 {
      DrainSplit(x, s, d, n1, n2);
    } else {
      ServeSplit(x, s, d, n1, n2);
    }
  }

  /** The case of GenerateSplit where the buffer is empty: both sides refill first. */
  lemma {:induction false} RefillSplit(x: ChaChaCipher, s: RngState, d: Draws, n1: nat, n2: nat)
    requires Good(s) && s.available == 0 && 0 < n1 && 0 < n2
    ensures Generate(x, s, d, n1 + n2) == Then(x, Generate(x, s, d, n1), n2)
    decreases n1, 1, 0
  {
    match Refill(x, s, d)
    case None =>
    case Some((s1, d1)) =>
      GenerateSplit(x, s1, d1, n1, n2);
  }

  /** The case of GenerateSplit where the first request empties the buffer and asks for more. */
  lemma {:induction false} DrainSplit(x: ChaChaCipher, s: RngState, d: Draws, n1: nat, n2: nat)
    requires Good(s) && 0 < s.available < n1 && 0 < n2
    ensures Generate(x, s, d, n1 + n2) == Then(x, Generate(x, s, d, n1), n2)
    decreases n1, 0, 0
  {
    var (c, s1) := Take(s, n1);
    assert Take(s, n1 + n2) == (c, s1);
    assert n1 + n2 - |c| == (n1 - |c|) + n2;
    GenerateSplit(x, s1, d, n1 - |c|, n2);
    ThenPrepend(x, c, Generate(x, s1, d, n1 - |c|), n2);
  }

  lemma ThenNothing(x: ChaChaCipher, r: Option<Served>)
    requires (r.Some? ==> Good(r.value.state))
    ensures Then(x, r, 0) == r
  {
    if r.Some? {
      assert r.value.out + [] == r.value.out;
    }
  }

  lemma ThenPrepend(x: ChaChaCipher, c: seq<byte>, r: Option<Served>, n: nat)
    requires (r.Some? ==> Good(r.value.state))
    ensures Then(x, Prepend(c, r), n) == Prepend(c, Then(x, r, n))
  {
    if r.Some? {
      PrependTwice(c, r.value.out, Generate(x, r.value.state, r.value.rest, n));
    }
  }

  /** The case of GenerateSplit where the buffer alone covers the first request. */
  lemma ServeSplit(x: ChaChaCipher, s: RngState, d: Draws, n1: nat, n2: nat)
    requires Good(s) && 0 < n1 <= s.available && n2 > 0
    ensures Generate(x, s, d, n1 + n2) == Then(x, Generate(x, s, d, n1), n2)
  {
    var (c1, s1) := Take(s, n1);
    assert Generate(x, s, d, n1) == Some(Served(c1, s1, d)) by {
      assert Generate(x, s, d, n1) == Prepend(c1, Generate(x, s1, d, 0));
      assert c1 + [] == c1;
    }
    if n1 == s.available {
      assert Take(s, n1 + n2) == (c1, s1);
    } else {
      TakeSplit(s, n1, n2);
      var (c2, s2) := Take(s1, n2);
      assert n1 + n2 - |c1 + c2| == n2 - |c2|;
      PrependTwice(c1, c2, Generate(x, s2, d, n2 - |c2|));
    }
  }

  /** A request the buffer covers draws no entropy and serves the unread bytes in order. */
  lemma ServeFromBuffer(x: ChaChaCipher, s: RngState, d: Draws, n: nat)
    requires Good(s) && 0 < n <= s.available
    ensures Generate(x, s, d, n) == Some(Served(s.buffer[64 - s.available..64 - s.available + n], s.(available := s.available - n), d))
  {
    var chunk := s.buffer[64 - s.available..64 - s.available + n];
    assert Generate(x, s, d, n) == Prepend(chunk, Generate(x, s.(available := s.available - n), d, 0));
    assert chunk + [] == chunk;
  }

  /** chacha20_xor of one 64-byte block is the exclusive or with one keystream block. */
  lemma XorOneBlock(b: seq<byte>, key: seq<byte>, nonce: seq<byte>, counter: bv32)
    requires |b| == 64 && |key| == 32 && |nonce| == 12
    ensures Xor(b, key, nonce, counter) == XorBytes(b, KeystreamBlock(key, nonce, counter))
  {
    assert Keystream(key, nonce)(counter) == KeystreamBlock(key, nonce, counter);
  }

  /**
    A refill moves the counter on by one (wrapping) and exclusive-ors the
    keystream block of the old counter into the buffer; entropy is drawn,
    two draws for key and nonce, exactly when the counter was zero.
   */
  lemma RefillKeystream(x: ChaChaCipher, s: RngState, d: Draws)
    requires Good(s) && Refill(x, s, d).Some?
    ensures var (s1, d1) := Refill(x, s, d).value;
      s1.counter == Add32(s.counter, 1) &&
      s1.buffer == XorBytes(s.buffer, KeystreamBlock(s1.key, s1.nonce, s.counter)) &&
      (s.counter != 0 ==> s1.key == s.key && s1.nonce == s.nonce && d1 == d) &&
      (s.counter == 0 ==> |d| >= 2 && s1.key == d[0] && s1.nonce == d[1] && d1 == d[2..])
  {
    var (s1, d1) := Refill(x, s, d).value;
    XorOneBlock(s.buffer, s1.key, s1.nonce, s.counter);
    if s.counter == 0 {
      assert d != [] && d[1..] != [];
      assert d[1..][1..] == d[2..];
    }
  }

  /** From the initial state with usable entropy, the first bytes are the keystream block of counter 0. */
  lemma FirstBytes(x: ChaChaCipher, d: Draws, n: nat)
    requires |d| >= 2 && |d[0]| == 32 && |d[1]| == 12 && 0 < n <= 64
    ensures Generate(x, Initial(), d, n).Some?
    ensures Generate(x, Initial(), d, n).value.out == KeystreamBlock(d[0], d[1], 0)[..n]
    ensures Generate(x, Initial(), d, n).value.rest == d[2..]
  {
    var s := Initial();
    RefillKeystream(x, s, d);
    var (s1, d1) := Refill(x, s, d).value;
    ServeFromBuffer(x, s1, d1, n);
    assert Generate(x, s, d, n) == Generate(x, s1, d1, n);
    var ks := KeystreamBlock(d[0], d[1], 0);
    assert s1.buffer == ks by {
      forall t | 0 <= t < 64
        ensures s1.buffer[t] == ks[t]
      {
        assert s.buffer[t] == 0;
      }
    }
  }

  /** The entropy source, as a queue of draws; `entropy(buf, n)` takes the next one. */
  class Entropy {
    var draws: Draws

    constructor (draws: Draws)
      ensures this.draws == draws
    {
      this.draws := draws;
    }

    method Draw() returns (b: seq<byte>)
      modifies this
      ensures (b, draws) == NextDraw(old(draws))
    {
      if draws == [] {
        b := [];
      } else {
        b, draws := draws[0], draws[1..];
      }
    }
  }

  /** The generator's static state. */
  class Rng {
    var key: seq<byte>
    var nonce: seq<byte>
    const buffer: array<byte>
    var counter: bv32
    var available: nat
    ghost const cipher: ChaChaCipher

    ghost predicate Valid()
      reads this
    {
      buffer.Length == 64 && |key| == 32 && |nonce| == 12 && available <= 64
    }

    ghost function State(): RngState
      reads this, buffer
    {
      RngState(key, nonce, buffer[..], counter, available)
    }

    constructor ()
      ensures Valid() && State() == Initial() && cipher == ChaChaXor() && fresh(buffer)
    {
      cipher := ChaChaXor();
      key, nonce := Zeros(32), Zeros(12);
      buffer := new byte[64](_ => 0);
      counter, available := 0, 0;
      new;
      assert buffer[..] == Zeros(64);
    }

    /** The `available == 0` branch of the loop; false where the source aborts. */
    method RefillBuffer(src: Entropy) returns (ok: bool)
      requires Valid() && available == 0
      modifies this, buffer, src
      ensures Valid() && (ok ==> available == 64)
      ensures Refill(cipher, old(State()), old(src.draws)) == if ok then Some((State(), src.draws)) else None
    {
      ghost var s := State();
      ghost var d := src.draws;
      if counter == 0 {
        var k := src.Draw();
        if |k| != 32 {
          return false;
        }
        var nc := src.Draw();
        if |nc| != 12 {
          return false;
        }
        key, nonce := k, nc;
      }
      NextBlock();
      ok := true;
    }

    /** `chacha20_xor(buffer, sizeof(buffer), key, nonce, counter++); available = sizeof(buffer);` */
    method NextBlock()
      requires Valid()
      modifies this, buffer
      ensures Valid() && State() == NewBlock(cipher, old(State()))
    {
      ghost var before := buffer[..];
      XorInPlace(buffer, 0, 64, key, nonce, counter);
      assert buffer[..] == Xor(before, key, nonce, counter) by {
        assert before[..0] == [] && before[0..64] == before && before[64..] == [];
      }
      counter := Add32(counter, 1);
      available := 64;
    }

    /** `memcpy(out, buffer + (64 - available), m)`, after the done bytes already served. */
    method Serve(out: array<byte>, done: nat, m: nat, ghost served: seq<byte>) returns (ghost served': seq<byte>)
      requires Valid() && m <= available && done + m <= out.Length && out != buffer && |served| == done
      requires forall j | 0 <= j < done :: out[j] == served[j]
      modifies out
      ensures served' == served + buffer[64 - available..64 - available + m]
      ensures forall j | 0 <= j < done + m :: out[j] == served'[j]
      ensures forall j | done + m <= j < out.Length :: out[j] == old(out[j])
    {
      served' := served + buffer[64 - available..64 - available + m];
      for k := done to done + m
        invariant forall j | 0 <= j < k :: out[j] == served'[j]
        invariant forall j | k <= j < out.Length :: out[j] == old(out[j])
      {
        out[k] := buffer[64 - available + (k - done)];
      }
    }

    /**
      `chacha20_rng(out, n)`: out[..n] receives the next n bytes of the
      stream; false exactly when the source would abort.
     */
    method Read(out: array<byte>, n: nat, src: Entropy) returns (ok: bool)
      requires Valid() && n <= out.Length && out != buffer
      modifies this, buffer, out, src
      ensures ok <==> Generate(cipher, old(State()), old(src.draws), n).Some?
      ensures ok ==> Valid() && State() == Generate(cipher, old(State()), old(src.draws), n).value.state
      ensures ok ==> src.draws == Generate(cipher, old(State()), old(src.draws), n).value.rest
      ensures ok ==> forall j | 0 <= j < n :: out[j] == Generate(cipher, old(State()), old(src.draws), n).value.out[j]
      ensures forall j | n <= j < out.Length :: out[j] == old(out[j])
    {
      ghost var s0, d0 := State(), src.draws;
      var rem: nat, done: nat := n, 0;
      ghost var served: seq<byte> := [];
      ghost var g := Generate(cipher, s0, d0, n);
      PrependNothing(g);
      while rem > 0
        invariant Valid() && done + rem == n && |served| == done
        invariant forall j | 0 <= j < done :: out[j] == served[j]
        invariant forall j | n <= j < out.Length :: out[j] == old(out[j])
        invariant g == Prepend(served, Generate(cipher, State(), src.draws, rem))
      {
        ok, rem, done, served := Step(out, done, rem, src, served, g);
        if !ok {
          return;
        }
      }
      GenerateNothing(cipher, State(), src.draws);
      assert served + [] == served;
      ok := true;
    }

    /** One pass of the loop of Read: refill if the buffer is empty, then serve from it. */
    method Step(out: array<byte>, done: nat, rem: nat, src: Entropy, ghost served: seq<byte>, ghost g: Option<Served>)
      returns (ok: bool, rem': nat, done': nat, ghost served': seq<byte>)
      requires Valid() && 0 < rem && done + rem <= out.Length && out != buffer && |served| == done
      requires forall j | 0 <= j < done :: out[j] == served[j]
      requires g == Prepend(served, Generate(cipher, State(), src.draws, rem))
      modifies this, buffer, out, src
      ensures Valid() && done <= done' && done' + rem' == done + rem && (!ok ==> g.None?)
      ensures ok ==> rem' < rem && |served'| == done' && g == Prepend(served', Generate(cipher, State(), src.draws, rem'))
      ensures ok ==> forall j | 0 <= j < done' :: out[j] == served'[j]
      ensures forall j | done' <= j < out.Length :: out[j] == old(out[j])
    {
      ghost var st, d := State(), src.draws;
      rem', done', served' := rem, done, served;
      if available == 0 {
        ok := RefillBuffer(src);
        if !ok {
          RefillStep(cipher, st, d, rem);
          return;
        }
      }
      ghost var st1, d1 := State(), src.draws;
      LoopStep(cipher, served, st, d, rem, st1, d1);
      var m;
      m, served' := ServeChunk(out, done, rem, served, st1);
      rem', done', ok := rem - m, done + m, true;
    }

    /** The `else` branch of the loop of Read: serve what the buffer holds, up to rem bytes. */
    method ServeChunk(out: array<byte>, done: nat, rem: nat, ghost served: seq<byte>, ghost st: RngState)
      returns (m: nat, ghost served': seq<byte>)
      requires Valid() && st == State() && 0 < available && 0 < rem && done + rem <= out.Length && out != buffer && |served| == done
      requires forall j | 0 <= j < done :: out[j] == served[j]
      modifies this, out
      ensures Valid() && State() == Take(st, rem).1 && served' == served + Take(st, rem).0 && m == |Take(st, rem).0|
      ensures forall j | 0 <= j < done + m :: out[j] == served'[j]
      ensures forall j | done + m <= j < out.Length :: out[j] == old(out[j])
    {
      m := Min(available, rem);
      served' := Serve(out, done, m, served);
      available := available - m;
      assert State() == st.(available := st.available - m);
    }

  }

  /** The `available == 0` branch of the loop of Read: the stream goes on from the refilled state, or fails. */
  lemma RefillStep(x: ChaChaCipher, s: RngState, d: Draws, n: nat)
    requires Good(s) && s.available == 0 && n > 0
    ensures Refill(x, s, d).None? ==> Generate(x, s, d, n).None?
    ensures Refill(x, s, d).Some? ==> Generate(x, s, d, n) == Generate(x, Refill(x, s, d).value.0, Refill(x, s, d).value.1, n)
  {
  }

  lemma GenerateNothing(x: ChaChaCipher, s: RngState, d: Draws)
    requires Good(s)
    ensures Generate(x, s, d, 0) == Some(Served([], s, d))
  {
  }

  /** One pass of the loop of Read, from state st with entropy d, refilled or not into st1 with d1. */
  lemma LoopStep(x: ChaChaCipher, served: seq<byte>, st: RngState, d: Draws, rem: nat, st1: RngState, d1: Draws)
    requires Good(st) && Good(st1) && rem > 0 && st1.available > 0
    requires st.available == 0 ==> Refill(x, st, d) == Some((st1, d1))
    requires st.available != 0 ==> st1 == st && d1 == d
    ensures var (chunk, s2) := Take(st1, rem);
      Prepend(served, Generate(x, st, d, rem)) == Prepend(served + chunk, Generate(x, s2, d1, rem - |chunk|))
  {
    if st.available == 0 {
      RefillStep(x, st, d, rem);
    }
    ServeStep(x, st1, d1, rem, served);
  }

  /** One pass of the loop of Read: the bytes copied out of the buffer join the bytes served. */
  lemma ServeStep(x: ChaChaCipher, s: RngState, d: Draws, rem: nat, served: seq<byte>)
    requires Good(s) && rem > 0 && s.available > 0
    ensures var (chunk, s1) := Take(s, rem);
      Prepend(served, Generate(x, s, d, rem)) == Prepend(served + chunk, Generate(x, s1, d, rem - |chunk|))
  {
    var (chunk, s1) := Take(s, rem);
    PrependTwice(served, chunk, Generate(x, s1, d, rem - |chunk|));
  }
}
