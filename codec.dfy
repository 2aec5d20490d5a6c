/**
  The sqleet codec record (`struct codec` of sqleet.c) and the operations
  that create, destroy and key it: `codec_new`, `codec_free`, `codec_kdf`.
 */
module SqleetCodec {
  import opened Bytes
  import opened Sqlite
  import Pbkdf2

  /** The flag bits of `codec->flags`: which settings were given explicitly (or, for HasKey, derived). */
  datatype Flag = HasKey | HasSalt | HasHeader | HasPageSize | HasSkip | HasKdf

  /** `codec->kdf`; KdfNone is 0, the value a zeroed codec has. */
  datatype KeyDerivation = KdfNone | KdfPbkdf2HmacSha256

  /** SKIP_HEADER_BYTES of sqleet.h: the default number of plaintext bytes at the start of page 1. */
  const SKIP_HEADER_BYTES: int := 0
  const PBKDF2_HMAC_SHA256_ITERATIONS: nat := 12345

  /** "SQLite format 3" with its terminating NUL: the magic that starts an SQLite database file. */
  const MAGIC: seq<byte> :=
    [0x53, 0x51, 0x4C, 0x69, 0x74, 0x65, 0x20, 0x66, 0x6F, 0x72, 0x6D, 0x61, 0x74, 0x20, 0x33, 0x00]

  const KEY_LEN: nat := 32
  const SALT_LEN: nat := 16
  const HEADER_LEN: nat := 16

  /** The plain-value fields of a codec (everything but the reader/writer links, the page buffer and the B-tree). */
  datatype Settings = Settings(
    key: seq<byte>, salt: seq<byte>, header: seq<byte>,
    flags: set<Flag>, pagesize: int, skip: int, kdf: KeyDerivation,
    error: int, zKey: Option<seq<byte>>, nKey: int)

  /** The settings of a zeroed codec that was handed the passphrase (zKey, nKey). */
  function Blank(zKey: Option<seq<byte>>, nKey: int): (s: Settings)
    ensures |s.key| == KEY_LEN && |s.salt| == SALT_LEN && |s.header| == HEADER_LEN
    ensures s.flags == {} && s.kdf == KdfNone && s.zKey == zKey && s.nKey == nKey
  {
    Settings(Zeros(KEY_LEN), Zeros(SALT_LEN), Zeros(HEADER_LEN), {}, 0, 0, KdfNone, 0, zKey, nKey)
  }

  /**
    What `codec_kdf` reads: a passphrase of at least nKey bytes, and at
    least 32 of them when they are the key itself.
   */
  predicate KdfReady(s: Settings)
  {
    s.zKey.Some? && 0 <= s.nKey <= |s.zKey.value| && (s.kdf == KdfNone ==> |s.zKey.value| >= KEY_LEN)
  }

  /**
    The master key `codec_kdf` commits to: PBKDF2-HMAC-SHA256 of the
    passphrase and the salt, or the first 32 passphrase bytes as they are.
   */
  function MasterKey(s: Settings, iterations: nat): (key: seq<byte>)
    requires KdfReady(s)
    ensures |key| == KEY_LEN
  {
    if s.kdf == KdfPbkdf2HmacSha256
    then Pbkdf2.Pbkdf2Sha256(s.zKey.value[..s.nKey], s.salt, iterations, KEY_LEN)
    else s.zKey.value[..KEY_LEN]
  }

  /**
    The settings after `codec_kdf`: the master key is committed, HasKey is
    set and the passphrase is forgotten; nothing else changes.
   */
  function Keyed(s: Settings, iterations: nat): (k: Settings)
    requires KdfReady(s)
    ensures HasKey in k.flags && k.flags - {HasKey} == s.flags - {HasKey}
    ensures k.zKey.None? && k.nKey == 0 && |k.key| == KEY_LEN
    ensures k == s.(key := k.key, flags := k.flags, zKey := None, nKey := 0)
  {
    s.(key := MasterKey(s, iterations), flags := s.flags + {HasKey}, zKey := None, nKey := 0)
  }

  /** The zeroing loop `for (i = 0; i < n; p[i++] = 0)`. */
  method ZeroPrefix(p: array<byte>, n: int)
    requires n <= p.Length
    modifies p
    ensures forall j | 0 <= j < p.Length :: p[j] == if j < n then 0 else old(p[j])
  {
    var i := 0;
    while i < n
      invariant 0 <= i <= if n < 0 then 0 else n
      invariant forall j | 0 <= j < p.Length :: p[j] == if j < i then 0 else old(p[j])
    {
      p[i] := 0;
      i := i + 1;
    }
  }

  class Codec {
    var reader: Codec?
    var writer: Codec?
    var key: seq<byte>
    var salt: seq<byte>
    var header: seq<byte>
    var flags: set<Flag>
    var pagebuf: array?<byte>
    var pagesize: int
    var skip: int
    var kdf: KeyDerivation
    /** The B-tree the codec is attached to, as an opaque handle; 0 is NULL. */
    var btree: nat
    var error: int
    var zKey: Option<seq<byte>>
    var nKey: int

    /** The fixed-size byte arrays of the record have their sizes. */
    ghost predicate Valid()
      reads this
    {
      |key| == KEY_LEN && |salt| == SALT_LEN && |header| == HEADER_LEN
    }

    ghost function State(): Settings
      reads this
    {
      Settings(key, salt, header, flags, pagesize, skip, kdf, error, zKey, nKey)
    }

    /**
      `codec_new(zKey, nKey, from)`: a zeroed codec that reads and writes
      itself, or a copy of `from` whose links to `from` now point to the
      copy; either way it holds the passphrase (zKey, nKey), no page buffer
      and no B-tree.
     */
    constructor (zKey: Option<seq<byte>>, nKey: int, from: Codec?)
      requires from != null ==> from.Valid()
      ensures Valid() && pagebuf == null && btree == 0
      ensures from == null ==> State() == Blank(zKey, nKey) && reader == this && writer == this
      ensures from != null ==> State() == from.State().(zKey := zKey, nKey := nKey)
      ensures from != null ==> reader == (if from.reader == from then this else from.reader)
      ensures from != null ==> writer == (if from.writer == from then this else from.writer)
    {
      if from == null {
        var b := Blank(zKey, nKey);
        key, salt, header := b.key, b.salt, b.header;
        flags, pagesize, skip, kdf, error := b.flags, b.pagesize, b.skip, b.kdf, b.error;
      } else {
        key, salt, header := from.key, from.salt, from.header;
        flags, pagesize, skip, kdf, error := from.flags, from.pagesize, from.skip, from.kdf, from.error;
      }
      pagebuf, btree := null, 0;
      this.zKey, this.nKey := zKey, nKey;
      new;
      if from == null {
        reader, writer := this, this;
      } else {
        reader := if from.reader == from then this else from.reader;
        writer := if from.writer == from then this else from.writer;
      }
    }

    /**
      `codec_free`: the first `pagesize` bytes of the page buffer are
      zeroed, and so is every field of the record.
     */
    method Free()
      requires pagebuf != null ==> pagesize <= pagebuf.Length
      modifies this, pagebuf
      ensures old(pagebuf) != null ==>
                (forall i | 0 <= i < old(pagebuf).Length ::
                   old(pagebuf)[i] == if i < old(pagesize) then 0 else old(pagebuf[i]))
      ensures State() == Blank(None, 0) && reader == null && writer == null
      ensures pagebuf == null && btree == 0
    {
      if pagebuf != null {
        ZeroPrefix(pagebuf, pagesize);
      }
      Clear();
    }

    /** The `memset(codec, 0, sizeof *codec)` half of `codec_free`. */
    method Clear()
      modifies this
      ensures State() == Blank(None, 0) && reader == null && writer == null
      ensures pagebuf == null && btree == 0
    {
      ClearLinks();
      ClearKeys();
      ClearSettings();
    }

    /** Zeroes the pointers of the record. */
    method ClearLinks()
      modifies this`reader, this`writer, this`pagebuf, this`btree
      ensures reader == null && writer == null && pagebuf == null && btree == 0
    {
      reader, writer, pagebuf, btree := null, null, null, 0;
    }

    /** Zeroes the key, salt and header arrays of the record. */
    method ClearKeys()
      modifies this`key, this`salt, this`header
      ensures key == Zeros(KEY_LEN) && salt == Zeros(SALT_LEN) && header == Zeros(HEADER_LEN)
    {
      key, salt, header := Zeros(KEY_LEN), Zeros(SALT_LEN), Zeros(HEADER_LEN);
    }

    /** Zeroes the scalar settings and the passphrase of the record. */
    method ClearSettings()
      modifies this`flags, this`pagesize, this`skip, this`kdf, this`error, this`zKey, this`nKey
      ensures flags == {} && pagesize == 0 && skip == 0 && kdf == KdfNone
      ensures error == 0 && zKey == None && nKey == 0
    {
      flags, pagesize, skip, kdf, error, zKey, nKey := {}, 0, 0, KdfNone, 0, None, 0;
    }

    /**
      `codec_kdf`: commits to the master key and forgets the passphrase;
      afterwards HasKey is set. The iteration count is a parameter (12345
      in sqleet, PBKDF2_HMAC_SHA256_ITERATIONS).
     */
    method Kdf(iterations: nat)
      requires Valid() && KdfReady(State())
      modifies this
      ensures Valid()
      ensures State() == Keyed(old(State()), iterations)
      ensures reader == old(reader) && writer == old(writer)
      ensures pagebuf == old(pagebuf) && btree == old(btree)
    {
      if kdf == KdfPbkdf2HmacSha256 {
        var dk := new byte[KEY_LEN];
        Pbkdf2.Pbkdf2HmacSha256(zKey.value[..nKey], salt, iterations, dk, KEY_LEN);
        key := dk[..];
      } else {
        key := zKey.value[..KEY_LEN];
      }
      flags := flags + {HasKey};
      zKey := None;
      nKey := 0;
    }
  }
}
