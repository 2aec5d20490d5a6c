/**
  `codec_handle`, the page transform sqleet installs in the SQLite pager,
  and `size_hook`. An encrypted page is laid out as

    [ data : n bytes | nonce : 16 bytes | tag : 16 bytes ]   n = pagesize - 32

  The one-time keys are the ChaCha20 block of the master key, nonce[0..12)
  and counter LE32(nonce[12..16)) ^ page: its first half is the Poly1305
  key, its second half the ChaCha20 key that encrypts data[skip..n) from
  counter + 1. The tag authenticates data and nonce. Page 1 keeps its first
  `skip` bytes plain and carries the codec header in bytes [0, 16).
 */
module SqleetPage {
  import opened Bytes
  import opened Sqlite
  import opened SqleetCodec
  import ChaCha20
  import Poly1305
  import Poly1305Limbs

  const PAGE_NONCE_LEN: nat := 16
  const PAGE_TAG_LEN: nat := 16
  const PAGE_RESERVED_LEN: nat := 32

  /** The per-page ChaCha20 counter: the last nonce word, little-endian, XOR the page number. */
  function PageCounter(nonce: seq<byte>, page: bv32): bv32
    requires |nonce| == PAGE_NONCE_LEN
  {
    Xor32(Load32Le(nonce, 12), page)
  }

  /** The 64 bytes of one-time keys: 64 zero bytes XORed with the keystream. */
  function OneTimeKeys(key: seq<byte>, nonce: seq<byte>, page: bv32): (otk: seq<byte>)
    requires |key| == KEY_LEN && |nonce| == PAGE_NONCE_LEN
    ensures |otk| == 64
  {
    ChaCha20.Xor(Zeros(64), key, nonce[..12], PageCounter(nonce, page))
  }

  /** The number of leading plain bytes: the codec's skip on page 1, none elsewhere. */
  function PlainBytes(skip: int, page: bv32): int
  {
    if page == 1 then skip else 0
  }

  /** The page layout leaves room for the plain bytes. */
  predicate Fits(pagesize: int, skip: int, page: bv32)
  {
    0 <= PlainBytes(skip, page) <= pagesize - PAGE_RESERVED_LEN
  }

  /**
    What a page is sealed and opened with, all derived from the one-time
    keys: the Poly1305 authenticator under their first half, the ChaCha20
    keystream of their second half and nonce[0..12) as a function of the
    block counter, and the first block counter (counter + 1).
   */
  datatype PageKeys = PageKeys(tag: seq<byte> -> seq<byte>, stream: bv32 -> seq<byte>, counter: bv32)

  /** Page keys whose tags are 16 bytes and whose keystream comes in 64-byte blocks. */
  ghost predicate Usable(pk: PageKeys)
  {
    (forall m :: |pk.tag(m)| == PAGE_TAG_LEN) && forall c :: |pk.stream(c)| == 64
  }

  /** The page keys that the one-time keys `otk` of nonce `nonce` and page `page` give. */
  function Keys(otk: seq<byte>, nonce: seq<byte>, page: bv32): (pk: PageKeys)
    requires |otk| == 64 && |nonce| == PAGE_NONCE_LEN
    ensures Usable(pk)
  {
    PageKeys(m => Poly1305.Mac(m, otk[..32]), ChaCha20.Keystream(otk[32..], nonce[..12]), Add32(PageCounter(nonce, page), 1))
  }

  /** The page keys of master key `key`, nonce `nonce` and page `page`. */
  function MasterKeys(key: seq<byte>, nonce: seq<byte>, page: bv32): (pk: PageKeys)
    requires |key| == KEY_LEN && |nonce| == PAGE_NONCE_LEN
    ensures Usable(pk)
  {
    Keys(OneTimeKeys(key, nonce, page), nonce, page)
  }

  /** The nonce a page carries: the 16 bytes after its data. */
  function NonceOf(data: seq<byte>): (nonce: seq<byte>)
    requires |data| >= PAGE_RESERVED_LEN
    ensures |nonce| == PAGE_NONCE_LEN
  {
    data[|data| - PAGE_RESERVED_LEN..|data| - PAGE_TAG_LEN]
  }

  /** The ChaCha20 encryption (and decryption) of a page's data bytes with the page keys. */
  function Masked(pk: PageKeys, data: seq<byte>): (m: seq<byte>)
    requires Usable(pk)
    ensures |m| == |data|
  {
    ChaCha20.XorWith(data, pk.stream, pk.counter)
  }

  /** With the page keys of `otk`, masking is `chacha20_xor` under otk[32..64), nonce[0..12) and counter + 1. */
  lemma MaskedIsXor(otk: seq<byte>, nonce: seq<byte>, page: bv32, data: seq<byte>)
    requires |otk| == 64 && |nonce| == PAGE_NONCE_LEN
    ensures Masked(Keys(otk, nonce, page), data)
            == ChaCha20.Xor(data, otk[32..], nonce[..12], Add32(PageCounter(nonce, page), 1))
  {
  }

  /** The data and nonce of a page sealed with the page keys `pk`, before the tag: page 1 carries the header. */
  function Sealed(pk: PageKeys, header: seq<byte>, skip: int, page: bv32,
                  plain: seq<byte>, nonce: seq<byte>): (body: seq<byte>)
    requires Usable(pk) && |header| == HEADER_LEN && |nonce| == PAGE_NONCE_LEN
    requires Fits(|plain|, skip, page)
    ensures |body| == |plain| - PAGE_TAG_LEN
  {
    var n := |plain| - PAGE_RESERVED_LEN;
    var s := PlainBytes(skip, page);
    var enc := plain[..s] + Masked(pk, plain[s..n]) + nonce;
    if page == 1 then header + enc[16..] else enc
  }

  /** A sealed page: the body, then the Poly1305 tag of the body. */
  function Seal(pk: PageKeys, header: seq<byte>, skip: int, page: bv32,
                plain: seq<byte>, nonce: seq<byte>): (enc: seq<byte>)
    requires Usable(pk) && |header| == HEADER_LEN && |nonce| == PAGE_NONCE_LEN
    requires Fits(|plain|, skip, page)
    ensures |enc| == |plain|
  {
    var body := Sealed(pk, header, skip, page, plain, nonce);
    body + pk.tag(body)
  }

  /** A page as the writer stores it: sealed with the page keys of the master key, the nonce and the page number. */
  function EncryptPage(key: seq<byte>, header: seq<byte>, skip: int, page: bv32,
                       plain: seq<byte>, nonce: seq<byte>): (enc: seq<byte>)
    requires |key| == KEY_LEN && |header| == HEADER_LEN && |nonce| == PAGE_NONCE_LEN
    requires Fits(|plain|, skip, page)
    ensures |enc| == |plain|
  {
    Seal(MasterKeys(key, nonce, page), header, skip, page, plain, nonce)
  }

  /** The page with its data bytes after the plain ones unmasked. */
  function Unmasked(pk: PageKeys, skip: int, page: bv32, data: seq<byte>): (x: seq<byte>)
    requires Usable(pk) && Fits(|data|, skip, page)
    ensures |x| == |data|
  {
    var n := |data| - PAGE_RESERVED_LEN;
    var s := PlainBytes(skip, page);
    data[..s] + Masked(pk, data[s..n]) + data[n..]
  }

  /** The tag a page carries is the tag of its data and nonce. */
  predicate Authentic(pk: PageKeys, data: seq<byte>)
    requires |data| >= PAGE_RESERVED_LEN
  {
    pk.tag(data[..|data| - PAGE_TAG_LEN]) == data[|data| - PAGE_TAG_LEN..]
  }

  /**
    Opening a page in place with the page keys `pk`: whether the tag
    matched, and the buffer afterwards. The data is unmasked before the tag
    is compared, so a rejected page is left unmasked with the wrong key
    stream; an accepted page 1 gets the SQLite magic back in its first 16 bytes.
   */
  function Open(pk: PageKeys, skip: int, page: bv32, data: seq<byte>): (r: (bool, seq<byte>))
    requires Usable(pk) && Fits(|data|, skip, page)
    ensures |r.1| == |data|
  {
    var x := Unmasked(pk, skip, page, data);
    if !Authentic(pk, data) then (false, x)
    else (true, if page == 1 then MAGIC + x[16..] else x)
  }

  /** Decrypting a page in place with the master key: opening it with the page keys of the nonce it carries. */
  function DecryptPage(key: seq<byte>, skip: int, page: bv32, data: seq<byte>): (r: (bool, seq<byte>))
    requires |key| == KEY_LEN && Fits(|data|, skip, page)
    ensures |r.1| == |data|
  {
    Open(MasterKeys(key, NonceOf(data), page), skip, page, data)
  }

  /**
    The reader's settings once it has read `data` as page `page`: reading
    page 1 without a key takes the salt (unless pinned) from its first 16
    bytes, the header (unless pinned) from the salt, and derives the key.
   */
  function ReaderKeyed(s: Settings, page: bv32, data: seq<byte>, iterations: nat): (t: Settings)
    requires |data| >= SALT_LEN
    requires page == 1 && HasKey !in s.flags ==> KdfReady(s)
    ensures HasKey in s.flags || page != 1 ==> t == s
  {
    if page == 1 && HasKey !in s.flags then
      var s1 := if HasSalt in s.flags then s else s.(salt := data[..SALT_LEN]);
      var s2 := if HasHeader in s1.flags then s1 else s1.(header := s1.salt);
      Keyed(s2, iterations)
    else s
  }

  /** The one-time keys, computed as the source does: XOR 64 zero bytes in place. */
  method MakeOneTimeKeys(key: seq<byte>, nonce: seq<byte>, page: bv32) returns (otk: seq<byte>)
    requires |key| == KEY_LEN && |nonce| == PAGE_NONCE_LEN
    ensures otk == OneTimeKeys(key, nonce, page)
  {
    var buf := new byte[64](_ => 0);
    assert buf[..] == Zeros(64);
    ChaCha20.XorInPlace(buf, 0, 64, key, nonce[..12], PageCounter(nonce, page));
    assert buf[..] == ChaCha20.Xor(Zeros(64), key, nonce[..12], PageCounter(nonce, page));
    otk := buf[..];
  }

  /** The key commitment of a reader that reads page 1 without a key. */
  method CommitReaderKey(reader: Codec, page: bv32, data: seq<byte>, iterations: nat)
    requires reader.Valid() && |data| >= SALT_LEN
    requires page == 1 && HasKey !in reader.flags ==> KdfReady(reader.State())
    modifies reader
    ensures reader.Valid()
    ensures reader.State() == ReaderKeyed(old(reader.State()), page, data, iterations)
    ensures reader.reader == old(reader.reader) && reader.writer == old(reader.writer)
    ensures reader.pagebuf == old(reader.pagebuf) && reader.btree == old(reader.btree)
  {
    if page == 1 && HasKey !in reader.flags {
      if HasSalt !in reader.flags {
        reader.salt := data[..SALT_LEN];
      }
      if HasHeader !in reader.flags {
        reader.header := reader.salt;
      }
      reader.Kdf(iterations);
    }
  }

  /** Unmasking a page buffer in place (`chacha20_xor` over the data bytes after the plain ones). */
  method UnmaskInPlace(data: array<byte>, otk: seq<byte>, skip: int, page: bv32)
    requires |otk| == 64 && Fits(data.Length, skip, page)
    modifies data
    ensures data[..] == Unmasked(Keys(otk, NonceOf(old(data[..])), page), skip, page, old(data[..]))
  {
    var n := data.Length - PAGE_RESERVED_LEN;
    var s := PlainBytes(skip, page);
    var nonce := data[n..n + PAGE_NONCE_LEN];
    ghost var before := data[..];
    assert nonce == NonceOf(before);
    MaskedIsXor(otk, nonce, page, before[s..n]);
    ChaCha20.XorInPlace(data, s, n - s, otk[32..], nonce[..12], Add32(PageCounter(nonce, page), 1));
  }

  /** Opening a page buffer in place with the one-time keys `otk` of the nonce it carries. */
  method OpenInPlace(data: array<byte>, otk: seq<byte>, skip: int, page: bv32) returns (ok: bool)
    requires |otk| == 64 && Fits(data.Length, skip, page)
    modifies data
    ensures (ok, data[..]) == Open(Keys(otk, NonceOf(old(data[..])), page), skip, page, old(data[..]))
  {
    ghost var before := data[..];
    ghost var pk := Keys(otk, NonceOf(before), page);
    ok := Authenticate(data, otk, skip, page);
    ghost var x := data[..];
    OpenIs(pk, skip, page, before, x);
    if ok && page == 1 {
      Overwrite(data, 0, MAGIC);
      assert data[..] == MAGIC + x[16..];
    }
  }

  /**
    Whether the stored tag is the Poly1305 tag of the data and nonce under the
    first one-time key, compared after the buffer is unmasked in place.
   */
  method Authenticate(data: array<byte>, otk: seq<byte>, skip: int, page: bv32) returns (ok: bool)
    requires |otk| == 64 && Fits(data.Length, skip, page)
    modifies data
    ensures ok == Authentic(Keys(otk, NonceOf(old(data[..])), page), old(data[..]))
    ensures data[..] == Unmasked(Keys(otk, NonceOf(old(data[..])), page), skip, page, old(data[..]))
  {
    var m := data.Length - PAGE_TAG_LEN;
    ghost var before := data[..];
    ghost var pk := Keys(otk, NonceOf(before), page);
    var tag := Poly1305Limbs.Poly1305Tag(data[..m], otk[..32]);
    AuthenticIs(pk, before, tag);
    UnmaskInPlace(data, otk, skip, page);
    UnmaskedTag(pk, skip, page, before, data[..]);
    var d := Poly1305.TagCmp(data[m..], tag);
    ok := d == 0;
  }

  /** A page is authentic when its stored tag is the tag computed over its data and nonce. */
  lemma AuthenticIs(pk: PageKeys, data: seq<byte>, tag: seq<byte>)
    requires |data| >= PAGE_RESERVED_LEN
    requires tag == pk.tag(data[..|data| - PAGE_TAG_LEN])
    ensures Authentic(pk, data) <==> tag == data[|data| - PAGE_TAG_LEN..]
  {
  }

  /** Unmasking leaves the tag where it was. */
  lemma UnmaskedTag(pk: PageKeys, skip: int, page: bv32, data: seq<byte>, x: seq<byte>)
    requires Usable(pk) && Fits(|data|, skip, page)
    requires x == Unmasked(pk, skip, page, data)
    ensures x[|data| - PAGE_TAG_LEN..] == data[|data| - PAGE_TAG_LEN..]
  {
    var n := |data| - PAGE_RESERVED_LEN;
    UnmaskedFrame(pk, skip, page, data);
    assert x[|data| - PAGE_TAG_LEN..] == x[n..][PAGE_NONCE_LEN..];
  }

  /** Open, for an unmasked buffer `x` already at hand. */
  lemma OpenIs(pk: PageKeys, skip: int, page: bv32, data: seq<byte>, x: seq<byte>)
    requires Usable(pk) && Fits(|data|, skip, page)
    requires x == Unmasked(pk, skip, page, data)
    ensures Open(pk, skip, page, data)
            == if !Authentic(pk, data) then (false, x) else (true, if page == 1 then MAGIC + x[16..] else x)
  {
  }

  /** Decrypting and authenticating a page buffer in place with the master key `key`. */
  method DecryptInPlace(data: array<byte>, key: seq<byte>, skip: int, page: bv32) returns (ok: bool)
    requires |key| == KEY_LEN && Fits(data.Length, skip, page)
    modifies data
    ensures (ok, data[..]) == DecryptPage(key, skip, page, old(data[..]))
  {
    var n := data.Length - PAGE_RESERVED_LEN;
    ghost var before := data[..];
    var nonce := data[n..n + PAGE_NONCE_LEN];
    assert nonce == NonceOf(before);
    var otk := MakeOneTimeKeys(key, nonce, page);
    ok := OpenInPlace(data, otk, skip, page);
  }

  /** What decrypting `data` as page `page` needs of the reader: a page-sized buffer and, on page 1 without a key, a passphrase. */
  ghost predicate ReadReady(reader: Codec, data: array<byte>, page: bv32)
    reads reader
  {
    && reader.Valid() && data.Length == reader.pagesize
    && Fits(reader.pagesize, reader.skip, page)
    && (page == 1 && HasKey !in reader.flags ==> KdfReady(reader.State()))
  }

  /** What encrypting `data` as page `page` needs of the writer: a page buffer of its page size, distinct from the data. */
  ghost predicate WriteReady(writer: Codec, data: array<byte>, page: bv32)
    reads writer
  {
    && writer.Valid() && writer.pagebuf != null && writer.pagebuf.Length == writer.pagesize
    && data.Length >= writer.pagesize && data != writer.pagebuf
    && Fits(writer.pagesize, writer.skip, page)
  }

  /** The modes in which the pager loads a page (0: journal, 2: reload, 3: load). */
  predicate ReadMode(mode: int)
  {
    mode == 0 || mode == 2 || mode == 3
  }

  /** The codec that encrypts in mode `mode`: the reader for journal pages (mode 7), the writer otherwise. */
  function WriterFor(codec: Codec, mode: int): Codec?
    reads codec
  {
    if mode == 7 then codec.reader else codec.writer
  }

  /**
    `codec_handle(codec, data, page, mode)`, with null for NULL: modes 0, 2
    and 3 decrypt `data` in place as the reader and give NULL when the page
    is not authentic; mode 6 encrypts into the writer's page buffer and
    mode 7 into the reader's; every other mode, and a missing
    reader or writer, gives `data` back untouched. The nonce that
    `chacha20_rng` would draw is the parameter `nonce`.
   */
  method CodecHandle(codec: Codec, data: array<byte>, page: bv32, mode: int, nonce: seq<byte>, iterations: nat)
    returns (result: array?<byte>)
    requires |nonce| == PAGE_NONCE_LEN
    requires ReadMode(mode) && codec.reader != null ==> ReadReady(codec.reader, data, page)
    requires (mode == 6 || mode == 7) && WriterFor(codec, mode) != null ==> WriteReady(WriterFor(codec, mode), data, page)
    modifies if ReadMode(mode) && codec.reader != null then {codec.reader, data} else {}
    modifies if (mode == 6 || mode == 7) && WriterFor(codec, mode) != null then {WriterFor(codec, mode).pagebuf} else {}
    ensures ReadMode(mode) && old(codec.reader) != null ==>
              var reader := old(codec.reader);
              var keyed := ReaderKeyed(old(reader.State()), page, old(data[..]), iterations);
              var r := DecryptPage(keyed.key, keyed.skip, page, old(data[..]));
              && (result == null <==> !r.0) && (result != null ==> result == data)
              && data[..] == r.1
              && reader.State() == keyed.(error := if r.0 then keyed.error else AUTH)
    ensures (mode == 6 || mode == 7) && old(WriterFor(codec, mode)) != null ==>
              var writer := old(WriterFor(codec, mode));
              && result == writer.pagebuf
              && writer.pagebuf[..] == EncryptPage(writer.key, writer.header, writer.skip, page, old(data[..writer.pagesize]), nonce)
    ensures !(ReadMode(mode) && old(codec.reader) != null) && !((mode == 6 || mode == 7) && old(WriterFor(codec, mode)) != null) ==>
              result == data
  {
    var reader := codec.reader;
    var writer := codec.writer;
    result := data;
    if ReadMode(mode) {
      if reader != null {
        var ok := Decrypt(reader, data, page, iterations);
        if !ok {
          result := null;
        }
      }
    } else if mode == 6 || mode == 7 {
      if mode == 7 {
        writer := reader;
      }
      if writer != null {
        Encrypt(writer, data, page, nonce);
        result := writer.pagebuf;
      }
    }
  }

  /**
    `size_hook(codec, new_pagesize, reserved)`: when the page size changes,
    a codec with a writer needs the 32 reserved bytes; with too few it loses
    its reader and writer and records SQLITE_MISUSE. Otherwise the hook
    asks the pager to keep the codec's page size (`restore`); the pager
    itself is not part of this model.
   */
  method SizeHook(codec: Codec?, newPagesize: int, reserved: int) returns (restore: bool)
    modifies codec
    ensures codec == null || old(codec.pagesize) == newPagesize ==> !restore && (codec != null ==> unchanged(codec))
    ensures codec != null && old(codec.pagesize) != newPagesize ==>
              var expected := if old(codec.writer) != null then PAGE_RESERVED_LEN else 0;
              && (restore <==> expected <= reserved)
              && (restore ==> unchanged(codec))
              && (!restore ==> codec.reader == null && codec.writer == null
                               && codec.State() == old(codec.State()).(error := MISUSE)
                               && codec.pagebuf == old(codec.pagebuf) && codec.btree == old(codec.btree))
  {
    restore := false;
    if codec != null && codec.pagesize != newPagesize {
      var expected := if codec.writer != null then PAGE_RESERVED_LEN else 0;
      if expected <= reserved {
        restore := true;
      } else {
        codec.reader, codec.writer := null, null;
        codec.error := MISUSE;
      }
    }
  }

  /** Modes 0, 2 and 3 of `codec_handle`: decrypt and authenticate `data` as the reader. */
  method Decrypt(reader: Codec, data: array<byte>, page: bv32, iterations: nat) returns (ok: bool)
    requires reader.Valid() && data.Length == reader.pagesize
    requires Fits(reader.pagesize, reader.skip, page)
    requires page == 1 && HasKey !in reader.flags ==> KdfReady(reader.State())
    modifies reader, data
    ensures reader.Valid()
    ensures var keyed := ReaderKeyed(old(reader.State()), page, old(data[..]), iterations);
            && reader.State() == keyed.(error := if ok then keyed.error else AUTH)
            && (ok, data[..]) == DecryptPage(keyed.key, keyed.skip, page, old(data[..]))
    ensures reader.reader == old(reader.reader) && reader.writer == old(reader.writer)
    ensures reader.pagebuf == old(reader.pagebuf) && reader.btree == old(reader.btree)
  {
    CommitReaderKey(reader, page, data[..], iterations);
    ok := DecryptWithKey(reader, data, page);
  }

  /** Decrypting with the reader's committed key; a page that fails authentication sets the reader's error to SQLITE_AUTH. */
  method DecryptWithKey(reader: Codec, data: array<byte>, page: bv32) returns (ok: bool)
    requires reader.Valid() && Fits(data.Length, reader.skip, page)
    modifies reader, data
    ensures reader.Valid()
    ensures reader.State() == old(reader.State()).(error := if ok then old(reader.error) else AUTH)
    ensures (ok, data[..]) == DecryptPage(old(reader.key), old(reader.skip), page, old(data[..]))
    ensures reader.reader == old(reader.reader) && reader.writer == old(reader.writer)
    ensures reader.pagebuf == old(reader.pagebuf) && reader.btree == old(reader.btree)
  {
    ok := DecryptInPlace(data, reader.key, reader.skip, page);
    if !ok {
      reader.error := AUTH;
    }
  }

  /** `memcpy(dst, src, len)`. */
  method CopyInto(dst: array<byte>, src: array<byte>, len: nat)
    requires dst != src && len <= dst.Length && len <= src.Length
    modifies dst
    ensures dst[..] == src[..len] + old(dst[len..])
  {
    forall i | 0 <= i < len {
      dst[i] := src[i];
    }
  }

  /** `memcpy(dst + off, bytes, |bytes|)`. */
  method Overwrite(dst: array<byte>, off: nat, bytes: seq<byte>)
    requires off + |bytes| <= dst.Length
    modifies dst
    ensures dst[..] == old(dst[..off]) + bytes + old(dst[off + |bytes|..])
  {
    forall i | 0 <= i < |bytes| {
      dst[off + i] := bytes[i];
    }
  }

  /** Modes 6 and 7 of `codec_handle`: encrypt a copy of `data` into the writer's page buffer. */
  method Encrypt(writer: Codec, data: array<byte>, page: bv32, nonce: seq<byte>)
    requires writer.Valid() && writer.pagebuf != null && writer.pagebuf.Length == writer.pagesize
    requires data.Length >= writer.pagesize && data != writer.pagebuf
    requires Fits(writer.pagesize, writer.skip, page) && |nonce| == PAGE_NONCE_LEN
    modifies writer.pagebuf
    ensures writer.pagebuf[..] == EncryptPage(writer.key, writer.header, writer.skip, page, data[..writer.pagesize], nonce)
  {
    var buf := writer.pagebuf;
    CopyInto(buf, data, writer.pagesize);
    assert buf[..] == data[..writer.pagesize];
    EncryptInPlace(buf, writer.key, writer.header, writer.skip, page, nonce);
  }

  /** Encrypting a page buffer in place with the master key `key` and the fresh nonce `nonce`. */
  method EncryptInPlace(buf: array<byte>, key: seq<byte>, header: seq<byte>, skip: int, page: bv32, nonce: seq<byte>)
    requires |key| == KEY_LEN && |header| == HEADER_LEN && |nonce| == PAGE_NONCE_LEN
    requires Fits(buf.Length, skip, page)
    modifies buf
    ensures buf[..] == EncryptPage(key, header, skip, page, old(buf[..]), nonce)
  {
    var otk := MakeOneTimeKeys(key, nonce, page);
    SealInPlace(buf, otk, header, skip, page, nonce);
  }

  /** Sealing a page buffer in place: nonce, masking and header, then the tag of the body. */
  method SealInPlace(buf: array<byte>, otk: seq<byte>, header: seq<byte>, skip: int, page: bv32, nonce: seq<byte>)
    requires |otk| == 64 && |header| == HEADER_LEN && |nonce| == PAGE_NONCE_LEN
    requires Fits(buf.Length, skip, page)
    modifies buf
    ensures buf[..] == Seal(Keys(otk, nonce, page), header, skip, page, old(buf[..]), nonce)
  {
    ghost var plain := buf[..];
    var n := buf.Length - PAGE_RESERVED_LEN;
    SealBody(buf, otk, header, skip, page, nonce);
    ghost var body := Sealed(Keys(otk, nonce, page), header, skip, page, plain, nonce);
    assert buf[..n + PAGE_NONCE_LEN] == body by {
      assert buf[..][..n + PAGE_NONCE_LEN] == (body + plain[n + PAGE_NONCE_LEN..])[..n + PAGE_NONCE_LEN];
    }
    var tag := Poly1305Limbs.Poly1305Tag(buf[..n + PAGE_NONCE_LEN], otk[..32]);
    assert tag == Keys(otk, nonce, page).tag(body);
    Overwrite(buf, n + PAGE_NONCE_LEN, tag);
  }

  /** Everything of sealing but the tag: the nonce after the data, the masking, the header. */
  method SealBody(buf: array<byte>, otk: seq<byte>, header: seq<byte>, skip: int, page: bv32, nonce: seq<byte>)
    requires |otk| == 64 && |header| == HEADER_LEN && |nonce| == PAGE_NONCE_LEN
    requires Fits(buf.Length, skip, page)
    modifies buf
    ensures buf[..] == Sealed(Keys(otk, nonce, page), header, skip, page, old(buf[..]), nonce)
                       + old(buf[buf.Length - PAGE_TAG_LEN..])
  {
    ghost var plain := buf[..];
    MaskPage(buf, otk, skip, page, nonce);
    BodyOfMasked(Keys(otk, nonce, page), header, skip, page, plain, nonce, buf[..]);
    StampHeader(buf, header, page);
  }

  /** Page 1 gets the plaintext header back over its first 16 bytes; other pages are left alone. */
  method StampHeader(buf: array<byte>, header: seq<byte>, page: bv32)
    requires |header| == HEADER_LEN <= buf.Length
    modifies buf
    ensures buf[..] == if page == 1 then header + old(buf[..])[16..] else old(buf[..])
  {
    if page == 1 {
      ghost var before := buf[..];
      Overwrite(buf, 0, header);
      EmptyFront(before[..0], header, before[16..]);
    }
  }

  /** The nonce stored after the data, then the data from the skip on masked with the page keystream. */
  method MaskPage(buf: array<byte>, otk: seq<byte>, skip: int, page: bv32, nonce: seq<byte>)
    requires |otk| == 64 && |nonce| == PAGE_NONCE_LEN
    requires Fits(buf.Length, skip, page)
    modifies buf
    ensures var n := buf.Length - PAGE_RESERVED_LEN;
            var s := PlainBytes(skip, page);
            var plain := old(buf[..]);
            buf[..] == plain[..s] + Masked(Keys(otk, nonce, page), plain[s..n]) + nonce + plain[n + PAGE_NONCE_LEN..]
  {
    ghost var plain := buf[..];
    var n := buf.Length - PAGE_RESERVED_LEN;
    var s := PlainBytes(skip, page);
    Overwrite(buf, n, nonce);
    ghost var copied := buf[..];
    CopiedParts(plain, nonce, copied, s, n);
    MaskedIsXor(otk, nonce, page, copied[s..n]);
    ChaCha20.XorInPlace(buf, s, n - s, otk[32..], nonce[..12], Add32(PageCounter(nonce, page), 1));
    assert copied[s..s + (n - s)] == copied[s..n] && copied[s + (n - s)..] == copied[n..];
    Regroup(plain[..s] + Masked(Keys(otk, nonce, page), plain[s..n]), nonce, plain[n + PAGE_NONCE_LEN..]);
  }

  lemma EmptyFront<T>(e: seq<T>, a: seq<T>, b: seq<T>)
    requires e == []
    ensures e + a + b == a + b
  {
  }

  /** The page buffer after the nonce and the masking is the sealed body (before the header) and the old tail. */
  lemma BodyOfMasked(pk: PageKeys, header: seq<byte>, skip: int, page: bv32, plain: seq<byte>,
                     nonce: seq<byte>, xored: seq<byte>)
    requires Usable(pk) && |header| == HEADER_LEN && |nonce| == PAGE_NONCE_LEN
    requires Fits(|plain|, skip, page)
    requires var n := |plain| - PAGE_RESERVED_LEN;
             var s := PlainBytes(skip, page);
             xored == plain[..s] + Masked(pk, plain[s..n]) + nonce + plain[n + PAGE_NONCE_LEN..]
    ensures (if page == 1 then header + xored[16..] else xored)
            == Sealed(pk, header, skip, page, plain, nonce) + plain[|plain| - PAGE_TAG_LEN..]
  {
    var n := |plain| - PAGE_RESERVED_LEN;
    var s := PlainBytes(skip, page);
    var c := Masked(pk, plain[s..n]);
    var tail := plain[n + PAGE_NONCE_LEN..];
    var enc := plain[..s] + c + nonce;
    assert Sealed(pk, header, skip, page, plain, nonce) == if page == 1 then header + enc[16..] else enc;
    SealShape(plain[..s], c, nonce, tail, header, page == 1);
  }

  lemma Regroup<T>(a: seq<T>, b: seq<T>, c: seq<T>)
    ensures a + (b + c) == a + b + c
  {
  }

  /** The pieces of a page buffer whose bytes [n, n + 16) were overwritten. */
  lemma CopiedParts<T>(plain: seq<T>, nonce: seq<T>, copied: seq<T>, s: int, n: int)
    requires 0 <= s <= n && n + |nonce| <= |plain|
    requires copied == plain[..n] + nonce + plain[n + |nonce|..]
    ensures copied[..s] == plain[..s] && copied[s..n] == plain[s..n]
    ensures copied[n..] == nonce + plain[n + |nonce|..]
  {
  }

  /** Writing a 16-element header over the front of a + c + nonce + tail keeps the tail at the end. */
  lemma SealShape<T>(a: seq<T>, c: seq<T>, nonce: seq<T>, tail: seq<T>, header: seq<T>, first: bool)
    requires |header| == 16 <= |a + c + nonce|
    ensures var x := a + c + nonce + tail;
            var enc := a + c + nonce;
            (if first then header + x[16..] else x) == (if first then header + enc[16..] else enc) + tail
  {
    var x := a + c + nonce + tail;
    var enc := a + c + nonce;
    assert x == enc + tail;
    assert x[16..] == enc[16..] + tail;
  }

  /** The first byte of page `page` that the writer stores masked: after the plain bytes and, on page 1, after the header. */
  function CipherStart(skip: int, page: bv32): (k: int)
    ensures k >= PlainBytes(skip, page)
    ensures page == 1 ==> k >= HEADER_LEN
  {
    if page == 1 && skip < HEADER_LEN then HEADER_LEN else PlainBytes(skip, page)
  }

  /** The first byte of page `page` that reading gives back as it was written: the header replaces page 1's first 16. */
  function DataStart(page: bv32): nat
  {
    if page == 1 then HEADER_LEN else 0
  }

  /**
    The layout of a sealed body: on page 1 the header comes first and the
    plain bytes beyond it stay as they were; the data bytes from
    CipherStart on are the page's masked data; the nonce follows the data.
   */
  lemma BodyLayout(pk: PageKeys, header: seq<byte>, skip: int, page: bv32, plain: seq<byte>, nonce: seq<byte>)
    requires Usable(pk) && |header| == HEADER_LEN && |nonce| == PAGE_NONCE_LEN
    requires Fits(|plain|, skip, page)
    ensures page != 1 || HEADER_LEN <= |plain| - PAGE_RESERVED_LEN ==>
              Sealed(pk, header, skip, page, plain, nonce)[|plain| - PAGE_RESERVED_LEN..] == nonce
    ensures page == 1 ==> Sealed(pk, header, skip, page, plain, nonce)[..HEADER_LEN] == header
    ensures page == 1 && HEADER_LEN <= skip ==>
              Sealed(pk, header, skip, page, plain, nonce)[HEADER_LEN..skip] == plain[HEADER_LEN..skip]
    ensures var s, k, n := PlainBytes(skip, page), CipherStart(skip, page), |plain| - PAGE_RESERVED_LEN;
            k <= n ==> Sealed(pk, header, skip, page, plain, nonce)[k..n] == Masked(pk, plain[s..n])[k - s..]
  {
    var n := |plain| - PAGE_RESERVED_LEN;
    var s := PlainBytes(skip, page);
    var c := Masked(pk, plain[s..n]);
    var enc := plain[..s] + c + nonce;
    assert Sealed(pk, header, skip, page, plain, nonce) == if page == 1 then header + enc[16..] else enc;
    LayoutShape(plain[..s], c, nonce, header, page == 1, CipherStart(skip, page));
  }

  /** Where the parts of a + c + nonce end up once a 16-element header is written over the front. */
  lemma LayoutShape<T>(a: seq<T>, c: seq<T>, nonce: seq<T>, header: seq<T>, first: bool, k: int)
    requires |header| == 16 <= |a + c + nonce|
    requires k == if first && |a| < 16 then 16 else |a|
    ensures var enc := a + c + nonce;
            var body := if first then header + enc[16..] else enc;
            && (!first || 16 <= |a + c| ==> body[|a + c|..] == nonce)
            && (first ==> body[..16] == header)
            && (first && 16 <= |a| ==> body[16..|a|] == a[16..])
            && (k <= |a + c| ==> body[k..|a + c|] == c[k - |a|..])
  {
    var enc := a + c + nonce;
    assert enc[|a + c|..] == nonce;
    if k <= |a + c| {
      assert enc[k..|a + c|] == c[k - |a|..];
    }
  }

  /** A sealed page is its body followed by the Poly1305 tag of the body. */
  lemma SealLayout(pk: PageKeys, header: seq<byte>, skip: int, page: bv32, plain: seq<byte>, nonce: seq<byte>)
    requires Usable(pk) && |header| == HEADER_LEN && |nonce| == PAGE_NONCE_LEN
    requires Fits(|plain|, skip, page)
    ensures var e := Seal(pk, header, skip, page, plain, nonce);
            var n := |plain| - PAGE_RESERVED_LEN;
            && e[..n + PAGE_NONCE_LEN] == Sealed(pk, header, skip, page, plain, nonce)
            && Authentic(pk, e)
  {
    var e := Seal(pk, header, skip, page, plain, nonce);
    var n := |plain| - PAGE_RESERVED_LEN;
    var body := Sealed(pk, header, skip, page, plain, nonce);
    var tag := pk.tag(body);
    assert e == body + tag;
    assert e[..n + PAGE_NONCE_LEN] == body && e[n + PAGE_NONCE_LEN..] == tag;
  }

  /** Unmasking changes neither the plain bytes nor the nonce and the tag. */
  lemma UnmaskedFrame(pk: PageKeys, skip: int, page: bv32, data: seq<byte>)
    requires Usable(pk) && Fits(|data|, skip, page)
    ensures var s := PlainBytes(skip, page);
            Unmasked(pk, skip, page, data)[..s] == data[..s]
    ensures var n := |data| - PAGE_RESERVED_LEN;
            Unmasked(pk, skip, page, data)[n..] == data[n..]
  {
    var n := |data| - PAGE_RESERVED_LEN;
    var s := PlainBytes(skip, page);
    var c := Masked(pk, data[s..n]);
    assert Unmasked(pk, skip, page, data) == data[..s] + c + data[n..];
  }

  /** Unmasking a page whose bytes from CipherStart on are a masking of `plain` gives those bytes of `plain` back. */
  lemma UnmaskRestores(pk: PageKeys, skip: int, page: bv32, data: seq<byte>, plain: seq<byte>)
    requires Usable(pk) && Fits(|data|, skip, page) && |plain| == |data|
    requires var s, k, n := PlainBytes(skip, page), CipherStart(skip, page), |data| - PAGE_RESERVED_LEN;
             k <= n ==> data[k..n] == Masked(pk, plain[s..n])[k - s..]
    ensures var s, k, n := PlainBytes(skip, page), CipherStart(skip, page), |data| - PAGE_RESERVED_LEN;
            k <= n ==> Unmasked(pk, skip, page, data)[k..n] == plain[k..n]
  {
    var n := |data| - PAGE_RESERVED_LEN;
    var s := PlainBytes(skip, page);
    var k := CipherStart(skip, page);
    var c := Masked(pk, data[s..n]);
    var x := Unmasked(pk, skip, page, data);
    assert x == data[..s] + c + data[n..];
    if k <= n {
      SliceOfSlice(data, s, n, k);
      ChaCha20.XorWithUndoesFrom(data[s..n], plain[s..n], pk.stream, pk.counter, k - s);
      MiddleSlice(data[..s], c, data[n..], k);
      SliceOfSlice(plain, s, n, k);
    }
  }

  /** A suffix of a slice is a slice. */
  lemma SliceOfSlice<T>(a: seq<T>, s: int, n: int, k: int)
    requires 0 <= s <= k <= n <= |a|
    ensures a[s..n][k - s..] == a[k..n]
  {
  }

  /** The part of a + c + b from k (within c) to the end of c. */
  lemma MiddleSlice<T>(a: seq<T>, c: seq<T>, b: seq<T>, k: int)
    requires |a| <= k <= |a| + |c|
    ensures (a + c + b)[k..|a| + |c|] == c[k - |a|..]
  {
    var x := a + c + b;
    assert forall j | k <= j < |a| + |c| :: x[j] == c[j - |a|];
  }

  /**
    Opening a page sealed with the same page keys and skip authenticates,
    and the data bytes come back; on page 1 the first 16 bytes are the
    SQLite magic instead of whatever they held before the header was
    written over them. The sealed page carries its nonce, and nonce and
    tag stay in the buffer.
   */
  lemma OpenSealed(pk: PageKeys, header: seq<byte>, skip: int, page: bv32, plain: seq<byte>, nonce: seq<byte>)
    requires Usable(pk) && |header| == HEADER_LEN && |nonce| == PAGE_NONCE_LEN
    requires Fits(|plain|, skip, page) && (page == 1 ==> HEADER_LEN <= |plain| - PAGE_RESERVED_LEN)
    ensures NonceOf(Seal(pk, header, skip, page, plain, nonce)) == nonce
    ensures Open(pk, skip, page, Seal(pk, header, skip, page, plain, nonce)).0
    ensures var n := |plain| - PAGE_RESERVED_LEN;
            Open(pk, skip, page, Seal(pk, header, skip, page, plain, nonce)).1[DataStart(page)..n]
            == plain[DataStart(page)..n]
    ensures page == 1 ==> Open(pk, skip, page, Seal(pk, header, skip, page, plain, nonce)).1[..HEADER_LEN] == MAGIC
    ensures var n := |plain| - PAGE_RESERVED_LEN;
            Open(pk, skip, page, Seal(pk, header, skip, page, plain, nonce)).1[n..]
            == Seal(pk, header, skip, page, plain, nonce)[n..]
  {
    var e := Seal(pk, header, skip, page, plain, nonce);
    SealLayout(pk, header, skip, page, plain, nonce);
    BodyLayout(pk, header, skip, page, plain, nonce);
    Unsealed(pk, header, skip, page, plain, nonce, e);
    OpenedData(pk, skip, page, plain, e);
    OpenIs(pk, skip, page, e, Unmasked(pk, skip, page, e));
  }

  /** What unmasking a stored copy of the sealed body gives back, before the tag is looked at. */
  lemma OpenedData(pk: PageKeys, skip: int, page: bv32, plain: seq<byte>, e: seq<byte>)
    requires Usable(pk) && Fits(|plain|, skip, page) && (page == 1 ==> HEADER_LEN <= |plain| - PAGE_RESERVED_LEN)
    requires |e| == |plain|
    requires page == 1 && HEADER_LEN <= skip ==> e[HEADER_LEN..skip] == plain[HEADER_LEN..skip]
    requires var s, k, n := PlainBytes(skip, page), CipherStart(skip, page), |plain| - PAGE_RESERVED_LEN;
             k <= n ==> e[k..n] == Masked(pk, plain[s..n])[k - s..]
    ensures var n := |plain| - PAGE_RESERVED_LEN;
            var x := Unmasked(pk, skip, page, e);
            var r := if page == 1 then MAGIC + x[16..] else x;
            && r[DataStart(page)..n] == plain[DataStart(page)..n]
            && (page == 1 ==> r[..HEADER_LEN] == MAGIC)
            && r[n..] == e[n..]
  {
    var n := |plain| - PAGE_RESERVED_LEN;
    var x := Unmasked(pk, skip, page, e);
    UnmaskedFrame(pk, skip, page, e);
    UnmaskRestores(pk, skip, page, e, plain);
    Reassembled(x, plain, e, skip, page, n);
  }

  /** The facts about the stored page that opening consumes, read off its body. */
  lemma Unsealed(pk: PageKeys, header: seq<byte>, skip: int, page: bv32, plain: seq<byte>, nonce: seq<byte>, e: seq<byte>)
    requires Usable(pk) && |header| == HEADER_LEN && |nonce| == PAGE_NONCE_LEN
    requires Fits(|plain|, skip, page) && (page == 1 ==> HEADER_LEN <= |plain| - PAGE_RESERVED_LEN)
    requires |e| == |plain|
    requires var n := |plain| - PAGE_RESERVED_LEN;
             var body := Sealed(pk, header, skip, page, plain, nonce);
             && e[..n + PAGE_NONCE_LEN] == body
             && body[n..] == nonce
             && (page == 1 && HEADER_LEN <= skip ==> body[HEADER_LEN..skip] == plain[HEADER_LEN..skip])
             && (var s, k := PlainBytes(skip, page), CipherStart(skip, page);
                 k <= n ==> body[k..n] == Masked(pk, plain[s..n])[k - s..])
    ensures var n := |plain| - PAGE_RESERVED_LEN;
            && NonceOf(e) == nonce
            && (page == 1 && HEADER_LEN <= skip ==> e[HEADER_LEN..skip] == plain[HEADER_LEN..skip])
            && (var s, k := PlainBytes(skip, page), CipherStart(skip, page);
                k <= n ==> e[k..n] == Masked(pk, plain[s..n])[k - s..])
  {
    var n := |plain| - PAGE_RESERVED_LEN;
    PrefixSlice(e, n + PAGE_NONCE_LEN, n, n + PAGE_NONCE_LEN);
    if page == 1 && HEADER_LEN <= skip {
      PrefixSlice(e, n + PAGE_NONCE_LEN, HEADER_LEN, skip);
    }
    var k := CipherStart(skip, page);
    if k <= n {
      PrefixSlice(e, n + PAGE_NONCE_LEN, k, n);
    }
  }

  /** A slice of a prefix is the slice of the whole. */
  lemma PrefixSlice<T>(a: seq<T>, m: int, k: int, n: int)
    requires 0 <= k <= n <= m <= |a|
    ensures a[..m][k..n] == a[k..n]
  {
  }

  /** The opened page, put together from the pieces Unmasked restores. */
  lemma Reassembled(x: seq<byte>, plain: seq<byte>, e: seq<byte>, skip: int, page: bv32, n: int)
    requires |x| == |plain| == |e| && n == |plain| - PAGE_RESERVED_LEN
    requires Fits(|plain|, skip, page) && (page == 1 ==> HEADER_LEN <= n)
    requires var k := CipherStart(skip, page); k <= n ==> x[k..n] == plain[k..n]
    requires var s := PlainBytes(skip, page); x[..s] == e[..s]
    requires x[n..] == e[n..]
    requires page == 1 && HEADER_LEN <= skip ==> e[HEADER_LEN..skip] == plain[HEADER_LEN..skip]
    ensures var r := if page == 1 then MAGIC + x[16..] else x;
            && r[DataStart(page)..n] == plain[DataStart(page)..n]
            && (page == 1 ==> r[..HEADER_LEN] == MAGIC)
            && r[n..] == e[n..]
  {
    var k := CipherStart(skip, page);
    var lo := DataStart(page);
    if page == 1 && HEADER_LEN <= skip {
      assert x[HEADER_LEN..skip] == x[..skip][HEADER_LEN..] == e[..skip][HEADER_LEN..];
    }
    assert x[lo..n] == plain[lo..n] by {
      if k <= n {
        assert x[lo..n] == x[lo..k] + x[k..n] && plain[lo..n] == plain[lo..k] + plain[k..n];
      }
    }
  }

  /**
    Decrypting, with the same master key and skip, what the writer
    encrypted authenticates, and gives the data bytes back (page 1's first
    16 bytes as the SQLite magic); nonce and tag stay in the buffer.
   */
  lemma DecryptEncrypted(key: seq<byte>, header: seq<byte>, skip: int, page: bv32, plain: seq<byte>, nonce: seq<byte>)
    requires |key| == KEY_LEN && |header| == HEADER_LEN && |nonce| == PAGE_NONCE_LEN
    requires Fits(|plain|, skip, page) && (page == 1 ==> HEADER_LEN <= |plain| - PAGE_RESERVED_LEN)
    ensures DecryptPage(key, skip, page, EncryptPage(key, header, skip, page, plain, nonce)).0
    ensures var n := |plain| - PAGE_RESERVED_LEN;
            DecryptPage(key, skip, page, EncryptPage(key, header, skip, page, plain, nonce)).1[DataStart(page)..n]
            == plain[DataStart(page)..n]
    ensures page == 1 ==> DecryptPage(key, skip, page, EncryptPage(key, header, skip, page, plain, nonce)).1[..HEADER_LEN] == MAGIC
    ensures var n := |plain| - PAGE_RESERVED_LEN;
            DecryptPage(key, skip, page, EncryptPage(key, header, skip, page, plain, nonce)).1[n..]
            == EncryptPage(key, header, skip, page, plain, nonce)[n..]
  {
    var pk := MasterKeys(key, nonce, page);
    var e := Seal(pk, header, skip, page, plain, nonce);
    OpenSealed(pk, header, skip, page, plain, nonce);
    assert DecryptPage(key, skip, page, e) == Open(pk, skip, page, e);
  }
}
