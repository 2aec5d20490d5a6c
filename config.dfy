/**
  `codec_parse_uri_config`: applies the URI parameters `page_size`, `skip`,
  `kdf`, `salt` and `header` to a codec, in that order, stopping at the
  first misuse. Settings inherited from another codec (flag set) survive an
  absent parameter; an empty parameter clears the flag and restores the
  default. The random bytes the codec draws are parameters.
 */
module SqleetConfig {
  import opened Bytes
  import opened Sqlite
  import opened SqleetUri
  import opened SqleetCodec

  /** "none", the only value the `kdf` parameter may have. */
  const KDF_NONE_NAME: seq<byte> := [0x6E, 0x6F, 0x6E, 0x65]

  /** The `page_size` parameter as the codec reads it: `(int)sqlite3_uri_int64(zUri, "page_size", -1)`. */
  function UriPageSize(q: Query): int
  {
    Int32(UriInt64(q, "page_size", -1))
  }

  predicate GoodPageSize(p: int)
  {
    512 <= p <= 65536 && PowerOfTwo(p)
  }

  predicate Sized(s: Settings)
  {
    |s.key| == KEY_LEN && |s.salt| == SALT_LEN && |s.header| == HEADER_LEN
  }

  /** What the configuration never touches: the key, the passphrase and the error; and the field sizes. */
  predicate Kept(s: Settings, t: Settings)
  {
    && t.key == s.key && t.zKey == s.zKey && t.nKey == s.nKey && t.error == s.error
    && (Sized(s) ==> Sized(t))
  }

  /** The flags agree on every flag but `f`. */
  predicate SameFlagsBut(a: set<Flag>, b: set<Flag>, f: Flag)
  {
    forall g :: g != f ==> (g in a <==> g in b)
  }

  /** The `page_size` override; `p` is the URI value. */
  function PageSizeStep(s: Settings, p: int): (r: (int, Settings))
    ensures r.0 == OK || r.0 == MISUSE
    ensures Kept(s, r.1)
    ensures r.1 == s.(pagesize := r.1.pagesize, flags := r.1.flags) && SameFlagsBut(s.flags, r.1.flags, HasPageSize)
  {
    if p > 0 then
      if p != s.pagesize && !GoodPageSize(p) then (MISUSE, s)
      else (OK, s.(pagesize := p, flags := s.flags + {HasPageSize}))
    else if p == 0 then (OK, s.(pagesize := 0, flags := s.flags - {HasPageSize}))
    else (OK, s)
  }

  /** The `skip` override, bounded by the URI page size `p` only. */
  function SkipStep(s: Settings, q: Query, p: int): (r: (int, Settings))
    ensures r.0 == OK || r.0 == MISUSE
    ensures Kept(s, r.1)
    ensures r.1 == s.(skip := r.1.skip, flags := r.1.flags) && SameFlagsBut(s.flags, r.1.flags, HasSkip)
  {
    var value := Parameter(q, "skip");
    var s1 := if value == Some([]) then s.(flags := s.flags - {HasSkip}) else s;
    var v := Int32(UriInt64(q, "skip", -1));
    var s2 := if value.Some? && value.value != [] && v >= 0 then s1.(skip := v, flags := s1.flags + {HasSkip})
              else if HasSkip !in s1.flags then s1.(skip := SKIP_HEADER_BYTES)
              else s1;
    if s2.skip < 0 || (p > 0 && s2.skip > p) then (MISUSE, s2) else (OK, s2)
  }

  /** The `kdf` override: absent means PBKDF2 unless inherited, "none" needs a 32-byte key. */
  function KdfStep(s: Settings, q: Query): (r: (int, Settings))
    ensures r.0 == OK || r.0 == MISUSE
    ensures Kept(s, r.1)
    ensures r.1 == s.(kdf := r.1.kdf, flags := r.1.flags) && SameFlagsBut(s.flags, r.1.flags, HasKdf)
  {
    var value := Parameter(q, "kdf");
    var s1 := if value == Some([]) then s.(flags := s.flags - {HasKdf}) else s;
    if value.None? || value == Some([]) then
      (OK, if HasKdf !in s1.flags then s1.(kdf := KdfPbkdf2HmacSha256) else s1)
    else if value.value == KDF_NONE_NAME && s1.nKey == KEY_LEN then
      (OK, s1.(kdf := KdfNone, flags := s1.flags + {HasKdf}))
    else (MISUSE, s1)
  }

  /** The `salt` parameter; a fresh random salt replaces an emptied or missing, not inherited one. */
  function SaltStep(s: Settings, q: Query, saltRandom: seq<byte>): (r: (int, Settings))
    requires Sized(s) && |saltRandom| == SALT_LEN
    ensures r.0 == OK || r.0 == MISUSE
    ensures Kept(s, r.1)
    ensures r.1 == s.(salt := r.1.salt, flags := r.1.flags) && SameFlagsBut(s.flags, r.1.flags, HasSalt)
  {
    var (rc, salt) := UriParameter(q, "salt", 1, SALT_LEN, s.salt);
    var s1 := s.(salt := salt);
    var (rc2, s2) :=
      if rc == OK then
        if s1.zKey.None? then (MISUSE, s1) else (OK, s1.(flags := s1.flags + {HasSalt}))
      else if rc == EMPTY then (OK, s1.(salt := saltRandom, flags := s1.flags - {HasSalt}))
      else if rc == NOTFOUND then
        (OK, if HasKey !in s1.flags && HasSalt !in s1.flags then s1.(salt := saltRandom) else s1)
      else (rc, s1);
    if rc2 == OK && s2.kdf == KdfNone && HasSalt in s2.flags then (MISUSE, s2) else (rc2, s2)
  }

  /**
    The header a codec gets when none is pinned: with key derivation the
    salt; without it the first `skip` bytes (at most 16) of the SQLite magic,
    then random bytes. A skip outside [0, 16] counts as 16, as the source's
    unsigned comparison makes it.
   */
  function DefaultHeader(s: Settings, headerRandom: seq<byte>): (h: seq<byte>)
    requires |s.salt| == SALT_LEN && |headerRandom| == HEADER_LEN
    ensures |h| == HEADER_LEN
  {
    if s.kdf == KdfNone then
      var k := if s.skip < 0 || s.skip > HEADER_LEN then HEADER_LEN else s.skip;
      MAGIC[..k] + headerRandom[..HEADER_LEN - k]
    else s.salt
  }

  /** The `header` parameter; an explicit header with key derivation needs an explicit salt. */
  function HeaderStep(s: Settings, q: Query, headerRandom: seq<byte>): (r: (int, Settings))
    requires Sized(s) && |headerRandom| == HEADER_LEN
    ensures r.0 == OK || r.0 == MISUSE
    ensures Kept(s, r.1)
    ensures r.1 == s.(header := r.1.header, flags := r.1.flags) && SameFlagsBut(s.flags, r.1.flags, HasHeader)
  {
    var (rc, header) := UriParameter(q, "header", 1, HEADER_LEN, s.header);
    var s1 := s.(header := header);
    if rc == OK then
      if s1.kdf == KdfNone || HasSalt in s1.flags then (OK, s1.(flags := s1.flags + {HasHeader}))
      else (MISUSE, s1)
    else if rc == NOTFOUND || rc == EMPTY then
      var s2 := if rc == EMPTY then s1.(flags := s1.flags - {HasHeader}) else s1;
      (OK, if HasHeader in s2.flags then s2 else s2.(header := DefaultHeader(s2, headerRandom)))
    else (rc, s1)
  }

  /** The result code and the settings after `codec_parse_uri_config`, partial on failure. */
  function ParseUriConfig(s: Settings, q: Query, saltRandom: seq<byte>, headerRandom: seq<byte>)
    : (r: (int, Settings))
    requires Sized(s) && |saltRandom| == SALT_LEN && |headerRandom| == HEADER_LEN
    ensures r.0 == OK || r.0 == MISUSE
    ensures Kept(s, r.1)
  {
    var p := UriPageSize(q);
    var (rc1, s1) := PageSizeStep(s, p);
    if rc1 != OK then (rc1, s1) else
    var (rc2, s2) := SkipStep(s1, q, p);
    if rc2 != OK then (rc2, s2) else
    var (rc3, s3) := KdfStep(s2, q);
    if rc3 != OK then (rc3, s3) else
    var (rc4, s4) := SaltStep(s3, q, saltRandom);
    if rc4 != OK then (rc4, s4) else
    HeaderStep(s4, q, headerRandom)
  }

  /** `codec_parse_uri_config(codec, zUri)`, field by field as the source updates them. */
  method ParseConfig(codec: Codec, q: Query, saltRandom: seq<byte>, headerRandom: seq<byte>)
    returns (rc: int)
    requires codec.Valid() && |saltRandom| == SALT_LEN && |headerRandom| == HEADER_LEN
    modifies codec
    ensures codec.Valid()
    ensures (rc, codec.State()) == ParseUriConfig(old(codec.State()), q, saltRandom, headerRandom)
    ensures codec.reader == old(codec.reader) && codec.writer == old(codec.writer)
    ensures codec.pagebuf == old(codec.pagebuf) && codec.btree == old(codec.btree)
  {
    var pagesize := UriPageSize(q);
    rc := PageSizeOverride(codec, pagesize);
    if rc != OK {
      return;
    }
    rc := SkipOverride(codec, q, pagesize);
    if rc != OK {
      return;
    }
    rc := KdfOverride(codec, q);
    if rc != OK {
      return;
    }
    rc := SaltParameter(codec, q, saltRandom);
    if rc != OK {
      return;
    }
    rc := HeaderParameter(codec, q, headerRandom);
  }

  method PageSizeOverride(codec: Codec, pagesize: int) returns (rc: int)
    modifies codec
    ensures (rc, codec.State()) == PageSizeStep(old(codec.State()), pagesize)
    ensures codec.reader == old(codec.reader) && codec.writer == old(codec.writer)
    ensures codec.pagebuf == old(codec.pagebuf) && codec.btree == old(codec.btree)
  {
    if pagesize > 0 {
      if pagesize != codec.pagesize {
        if !GoodPageSize(pagesize) {
          return MISUSE;
        }
        codec.pagesize := pagesize;
      }
      codec.flags := codec.flags + {HasPageSize};
    } else if pagesize == 0 {
      codec.pagesize := pagesize;
      codec.flags := codec.flags - {HasPageSize};
    }
    return OK;
  }

  method SkipOverride(codec: Codec, q: Query, pagesize: int) returns (rc: int)
    modifies codec
    ensures (rc, codec.State()) == SkipStep(old(codec.State()), q, pagesize)
    ensures codec.reader == old(codec.reader) && codec.writer == old(codec.writer)
    ensures codec.pagebuf == old(codec.pagebuf) && codec.btree == old(codec.btree)
  {
    var value := Parameter(q, "skip");
    if value.Some? && value.value == [] {
      codec.flags := codec.flags - {HasSkip};
      value := None;
    }
    var v := Int32(UriInt64(q, "skip", -1));
    if value.Some? && v >= 0 {
      codec.skip := v;
      codec.flags := codec.flags + {HasSkip};
    } else if HasSkip !in codec.flags {
      codec.skip := SKIP_HEADER_BYTES;
    }
    if codec.skip < 0 || (pagesize > 0 && codec.skip > pagesize) {
      return MISUSE;
    }
    return OK;
  }

  method KdfOverride(codec: Codec, q: Query) returns (rc: int)
    modifies codec
    ensures (rc, codec.State()) == KdfStep(old(codec.State()), q)
    ensures codec.reader == old(codec.reader) && codec.writer == old(codec.writer)
    ensures codec.pagebuf == old(codec.pagebuf) && codec.btree == old(codec.btree)
  {
    var value := Parameter(q, "kdf");
    if value.Some? && value.value == [] {
      codec.flags := codec.flags - {HasKdf};
      value := None;
    }
    if value.None? {
      if HasKdf !in codec.flags {
        codec.kdf := KdfPbkdf2HmacSha256;
      }
    } else if value.value == KDF_NONE_NAME && codec.nKey == KEY_LEN {
      codec.kdf := KdfNone;
      codec.flags := codec.flags + {HasKdf};
    } else {
      return MISUSE;
    }
    return OK;
  }

  method SaltParameter(codec: Codec, q: Query, saltRandom: seq<byte>) returns (rc: int)
    requires codec.Valid() && |saltRandom| == SALT_LEN
    modifies codec
    ensures codec.Valid()
    ensures (rc, codec.State()) == SaltStep(old(codec.State()), q, saltRandom)
    ensures codec.reader == old(codec.reader) && codec.writer == old(codec.writer)
    ensures codec.pagebuf == old(codec.pagebuf) && codec.btree == old(codec.btree)
  {
    rc, codec.salt := CodecUriParameter(q, "salt", 1, SALT_LEN, codec.salt);
    if rc == OK {
      if codec.zKey.None? {
        return MISUSE;
      }
      codec.flags := codec.flags + {HasSalt};
    } else if rc == EMPTY {
      codec.salt := saltRandom;
      codec.flags := codec.flags - {HasSalt};
    } else if rc == NOTFOUND {
      if HasKey !in codec.flags && HasSalt !in codec.flags {
        codec.salt := saltRandom;
      }
    } else {
      return rc;
    }
    if codec.kdf == KdfNone && HasSalt in codec.flags {
      return MISUSE;
    }
    return OK;
  }

  method HeaderParameter(codec: Codec, q: Query, headerRandom: seq<byte>) returns (rc: int)
    requires codec.Valid() && |headerRandom| == HEADER_LEN
    modifies codec
    ensures codec.Valid()
    ensures (rc, codec.State()) == HeaderStep(old(codec.State()), q, headerRandom)
    ensures codec.reader == old(codec.reader) && codec.writer == old(codec.writer)
    ensures codec.pagebuf == old(codec.pagebuf) && codec.btree == old(codec.btree)
  {
    rc, codec.header := CodecUriParameter(q, "header", 1, HEADER_LEN, codec.header);
    if rc == OK {
      if codec.kdf == KdfNone || HasSalt in codec.flags {
        codec.flags := codec.flags + {HasHeader};
      } else {
        rc := MISUSE;
      }
    } else if rc == NOTFOUND || rc == EMPTY {
      if rc == EMPTY {
        codec.flags := codec.flags - {HasHeader};
      }
      if HasHeader !in codec.flags {
        if codec.kdf == KdfNone {
          var skip := codec.skip;
          if skip < 0 || skip > HEADER_LEN {
            skip := HEADER_LEN;
          }
          codec.header := MAGIC[..skip] + headerRandom[..HEADER_LEN - skip];
        } else {
          codec.header := codec.salt;
        }
      }
      rc := OK;
    }
  }

  /**
    A positive `page_size` other than the current one must be a power of two
    in [512, 65536]; a positive one is pinned, 0 resets the page size and
    unpins it, a negative or absent one leaves both alone.
   */
  lemma ParsePageSize(s: Settings, q: Query, saltRandom: seq<byte>, headerRandom: seq<byte>)
    requires Sized(s) && |saltRandom| == SALT_LEN && |headerRandom| == HEADER_LEN
    ensures var p := UriPageSize(q);
            var r := ParseUriConfig(s, q, saltRandom, headerRandom);
            && (p > 0 && p != s.pagesize && !GoodPageSize(p) ==> r == (MISUSE, s))
            && (p > 0 && (p == s.pagesize || GoodPageSize(p)) ==> r.1.pagesize == p && HasPageSize in r.1.flags)
            && (p == 0 ==> r.1.pagesize == 0 && HasPageSize !in r.1.flags)
            && (p < 0 ==> r.1.pagesize == s.pagesize && (HasPageSize in r.1.flags <==> HasPageSize in s.flags))
  {
    var p := UriPageSize(q);
    var (rc1, s1) := PageSizeStep(s, p);
    if rc1 == OK {
      var (rc2, s2) := SkipStep(s1, q, p);
      var (rc3, s3) := KdfStep(s2, q);
      var (rc4, s4) := SaltStep(s3, q, saltRandom);
      var (rc5, s5) := HeaderStep(s4, q, headerRandom);
      assert HasPageSize in s5.flags <==> HasPageSize in s1.flags by {
        assert HasPageSize in s2.flags <==> HasPageSize in s1.flags;
        assert HasPageSize in s3.flags <==> HasPageSize in s2.flags;
        assert HasPageSize in s4.flags <==> HasPageSize in s3.flags;
        assert HasPageSize in s5.flags <==> HasPageSize in s4.flags;
      }
    }
  }

  /**
    `kdf=none` is the only accepted value and needs a 32-byte key; an empty
    `kdf` restores PBKDF2, an absent one keeps an inherited choice. Without
    key derivation no salt can be pinned.
   */
  lemma ParseKdf(s: Settings, q: Query, saltRandom: seq<byte>, headerRandom: seq<byte>)
    requires Sized(s) && |saltRandom| == SALT_LEN && |headerRandom| == HEADER_LEN
    ensures var v := Parameter(q, "kdf");
            var r := ParseUriConfig(s, q, saltRandom, headerRandom);
            && (v.Some? && v.value != [] && (v.value != KDF_NONE_NAME || s.nKey != KEY_LEN) ==> r.0 == MISUSE)
            && (r.0 == OK && v.Some? && v.value != [] ==> r.1.kdf == KdfNone && HasKdf in r.1.flags)
            && (r.0 == OK && v == Some([]) ==> r.1.kdf == KdfPbkdf2HmacSha256 && HasKdf !in r.1.flags)
            && (r.0 == OK && v.None? ==>
                  r.1.kdf == (if HasKdf in s.flags then s.kdf else KdfPbkdf2HmacSha256)
                  && (HasKdf in r.1.flags <==> HasKdf in s.flags))
            && (r.0 == OK ==> !(r.1.kdf == KdfNone && HasSalt in r.1.flags))
  {
  }

  /**
    An explicit salt needs a passphrase and is pinned; an emptied salt is
    replaced by random bytes and unpinned; a missing one is drawn at random
    unless the codec already has a key or a pinned salt.
   */
  lemma ParseSalt(s: Settings, q: Query, saltRandom: seq<byte>, headerRandom: seq<byte>)
    requires Sized(s) && |saltRandom| == SALT_LEN && |headerRandom| == HEADER_LEN
    ensures var u := UriParameter(q, "salt", 1, SALT_LEN, s.salt);
            var r := ParseUriConfig(s, q, saltRandom, headerRandom);
            && (u.0 == OK && s.zKey.None? ==> r.0 == MISUSE)
            && (r.0 == OK && u.0 == OK ==> r.1.salt == u.1 && HasSalt in r.1.flags)
            && (r.0 == OK && u.0 == EMPTY ==> r.1.salt == saltRandom && HasSalt !in r.1.flags)
            && (r.0 == OK && u.0 == NOTFOUND ==>
                  r.1.salt == (if HasKey in s.flags || HasSalt in s.flags then s.salt else saltRandom)
                  && (HasSalt in r.1.flags <==> HasSalt in s.flags))
  {
  }

  /**
    An explicit header is pinned, and needs an explicit salt when the key is
    derived; an unpinned header is the default one.
   */
  lemma ParseHeader(s: Settings, q: Query, saltRandom: seq<byte>, headerRandom: seq<byte>)
    requires Sized(s) && |saltRandom| == SALT_LEN && |headerRandom| == HEADER_LEN
    ensures var u := UriParameter(q, "header", 1, HEADER_LEN, s.header);
            var r := ParseUriConfig(s, q, saltRandom, headerRandom);
            && (r.0 == OK && u.0 == OK ==>
                  (r.1.kdf == KdfNone || HasSalt in r.1.flags) && HasHeader in r.1.flags && r.1.header == u.1)
            && (r.0 == OK && u.0 == EMPTY ==> HasHeader !in r.1.flags)
            && (r.0 == OK && u.0 == NOTFOUND ==> (HasHeader in r.1.flags <==> HasHeader in s.flags))
            && (r.0 == OK && HasHeader !in r.1.flags ==> r.1.header == DefaultHeader(r.1, headerRandom))
  {
  }

  /**
    After a successful parse the skip is non-negative and at most the URI
    page size when one was given; a numeric `skip` is pinned, and absent an
    inherited one the skip is SKIP_HEADER_BYTES.
   */
  lemma ParseSkip(s: Settings, q: Query, saltRandom: seq<byte>, headerRandom: seq<byte>)
    requires Sized(s) && |saltRandom| == SALT_LEN && |headerRandom| == HEADER_LEN
    ensures var p := UriPageSize(q);
            var v := Int32(UriInt64(q, "skip", -1));
            var r := ParseUriConfig(s, q, saltRandom, headerRandom);
            && (r.0 == OK ==> 0 <= r.1.skip && (p > 0 ==> r.1.skip <= p))
            && (r.0 == OK && "skip" in q && q["skip"] != [] && v >= 0 ==> r.1.skip == v && HasSkip in r.1.flags)
            && (r.0 == OK && ("skip" !in q || q["skip"] == []) ==>
                  HasSkip !in r.1.flags ==> r.1.skip == SKIP_HEADER_BYTES)
  {
  }

  /**
    The skip is checked against the URI page size only: when the URI names
    no page size, any non-negative `skip` is accepted, whatever page size the
    codec already has.
   */
  lemma SkipUnboundedByCodecPageSize(s: Settings, q: Query, saltRandom: seq<byte>, headerRandom: seq<byte>)
    requires Sized(s) && |saltRandom| == SALT_LEN && |headerRandom| == HEADER_LEN
    requires HasSalt !in s.flags && "page_size" !in q && "kdf" !in q
    requires "salt" !in q && "hexsalt" !in q && "header" !in q && "hexheader" !in q
    requires "skip" in q && q["skip"] != [] && Int32(UriInt64(q, "skip", -1)) >= 0
    ensures var r := ParseUriConfig(s, q, saltRandom, headerRandom);
            r.0 == OK && r.1.skip == Int32(UriInt64(q, "skip", -1)) && r.1.pagesize == s.pagesize
  {
    var p := UriPageSize(q);
    assert p == -1;
    var (rc1, s1) := PageSizeStep(s, p);
    assert rc1 == OK && s1 == s;
    var (rc2, s2) := SkipStep(s1, q, p);
    assert rc2 == OK && s2.skip == Int32(UriInt64(q, "skip", -1)) && HasSalt !in s2.flags;
    var (rc3, s3) := KdfStep(s2, q);
    assert rc3 == OK && s3.skip == s2.skip && HasSalt !in s3.flags;
    AbsentSaltHeader(s3, q, saltRandom, headerRandom);
  }

  /** With neither `salt` nor `header` in the URI and no salt inherited, the last two steps succeed. */
  lemma AbsentSaltHeader(s: Settings, q: Query, saltRandom: seq<byte>, headerRandom: seq<byte>)
    requires Sized(s) && |saltRandom| == SALT_LEN && |headerRandom| == HEADER_LEN
    requires HasSalt !in s.flags
    requires "salt" !in q && "hexsalt" !in q && "header" !in q && "hexheader" !in q
    ensures var (rc4, s4) := SaltStep(s, q, saltRandom);
            rc4 == OK && s4.skip == s.skip && s4.pagesize == s.pagesize && Sized(s4) &&
            var (rc5, s5) := HeaderStep(s4, q, headerRandom);
            rc5 == OK && s5.skip == s.skip && s5.pagesize == s.pagesize
  {
    assert "hex" + "salt" == "hexsalt" && "hex" + "header" == "hexheader";
    var (rc4, s4) := SaltStep(s, q, saltRandom);
    assert UriParameter(q, "salt", 1, SALT_LEN, s.salt).0 == NOTFOUND;
    assert rc4 == OK;
    assert UriParameter(q, "header", 1, HEADER_LEN, s4.header).0 == NOTFOUND;
  }

  /** A codec with 1024-byte pages accepts `skip=2000` when the URI gives no page size. */
  lemma SkipBeyondCodecPageSize()
    ensures var s := Blank(Some(Zeros(KEY_LEN)), KEY_LEN).(pagesize := 1024);
            var q: Query := map["skip" := [0x32, 0x30, 0x30, 0x30]];
            var r := ParseUriConfig(s, q, Zeros(SALT_LEN), Zeros(HEADER_LEN));
            r.0 == OK && r.1.skip == 2000 && r.1.pagesize == 1024
  {
    var s := Blank(Some(Zeros(KEY_LEN)), KEY_LEN).(pagesize := 1024);
    var q: Query := map["skip" := [0x32, 0x30, 0x30, 0x30]];
    SkipIs2000(q);
    SkipUnboundedByCodecPageSize(s, q, Zeros(SALT_LEN), Zeros(HEADER_LEN));
  }

  /** The text "2000" reads as 2000. */
  lemma SkipIs2000(q: Query)
    requires q == map["skip" := [0x32, 0x30, 0x30, 0x30]]
    ensures UriInt64(q, "skip", -1) == 2000
  {
    var d: seq<byte> := [0x32, 0x30, 0x30, 0x30];
    assert d[..1] == [0x32] && d[..2] == [0x32, 0x30] && d[..3] == [0x32, 0x30, 0x30];
    assert [0x32][..0] == [] && [0x32, 0x30][..1] == [0x32] && [0x32, 0x30, 0x30][..2] == [0x32, 0x30];
    assert Decimal([0x32]) == 2;
    assert Decimal([0x32, 0x30]) == 20;
    assert Decimal([0x32, 0x30, 0x30]) == 200;
    assert Decimal(d) == 2000;
    DecimalParses(d);
  }
}
