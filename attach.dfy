/**
  The attach-side pieces of sqleet.c: the page-1 test with which
  `codec_set_to` accepts a codec, `db_index_of`, `sqlite3CodecGetKey` and the
  way `sqlite3CodecAttach` reads its result, and the page loop with which
  `sqlite3_rekey_v2` re-encrypts a database under a new key.
 */
module SqleetAttach {
  import opened Bytes
  import opened Sqlite
  import opened SqleetCodec

  /** `(data[i] << 8) | data[i + 1]` stored in a `uint16_t`: a big-endian 16-bit field. */
  function Be16(d: seq<byte>, i: nat): bv16
    requires i + 2 <= |d|
  {
    (d[i] as bv16 << 8) | d[i + 1] as bv16
  }

  /** A big-endian 32-bit field, shifted in one byte at a time as the source does. */
  function Be32(d: seq<byte>, i: nat): bv32
    requires i + 4 <= |d|
  {
    var v := d[i] as bv32;
    var v := (v << 8) | d[i + 1] as bv32;
    var v := (v << 8) | d[i + 2] as bv32;
    (v << 8) | d[i + 3] as bv32
  }

  /** Version numbers of SQLite 3 (3000000 to 3999999). */
  predicate Sqlite3Version(v: bv32)
  {
    3000000 <= v < 4000000
  }

  /** `pagesize >= 512 && !(pagesize & (pagesize-1))` on the 16-bit field. */
  predicate PageSizeTest(p: bv16)
  {
    p >= 512 && p & (p - 1) == 0
  }

  /**
    The test `codec_set_to` applies to page 1 as read through the codec, as
    written: the magic string, a 16-bit page size that is a power of two of at
    least 512, the payload fractions 64, 32, 32 at offsets 21 to 23 and an
    SQLite 3 version number at offset 96. A page cache page is never shorter
    than 512 bytes, so the 100 header bytes are there.
   */
  function Page1Rc(d: seq<byte>): (rc: int)
    requires |d| >= 100
    ensures rc == OK || rc == NOTADB
  {
    if d[..16] != MAGIC then NOTADB
    else if !PageSizeTest(Be16(d, 16)) then NOTADB
    else if !(d[21] == 64 && d[22] == 32 && d[23] == 32) then NOTADB
    else if !Sqlite3Version(Be32(d, 96)) then NOTADB
    else OK
  }

  /** The page sizes of the file format: powers of two from 512 to 65536. */
  predicate ValidPageSize(p: bv32)
  {
    0x200 <= p <= 0x1_0000 && p & (p - 1) == 0
  }

  /**
    The page size a 16-bit header field stands for: the file format stores
    65536, which does not fit, as 1.
   */
  function StoredPageSize(f: bv16): bv32
  {
    if f == 1 then 0x1_0000 else f as bv32
  }

  /** The page-1 test with the page size field read as the file format defines it. */
  function Page1RcCorrected(d: seq<byte>): (rc: int)
    requires |d| >= 100
    ensures rc == OK || rc == NOTADB
  {
    if d[..16] != MAGIC then NOTADB
    else if !ValidPageSize(StoredPageSize(Be16(d, 16))) then NOTADB
    else if !(d[21] == 64 && d[22] == 32 && d[23] == 32) then NOTADB
    else if !Sqlite3Version(Be32(d, 96)) then NOTADB
    else OK
  }

  /** The two fields of the database header that identify a database besides its fixed bytes. */
  datatype DbHeader = DbHeader(pageSize: bv32, version: bv32)

  /** The 16-bit page size field SQLite writes. */
  function PageSizeField(p: bv32): (f: bv16)
    requires ValidPageSize(p)
  {
    if p == 0x1_0000 then 1 else p as bv16
  }

  /** Storing a page size and reading it back as the file format defines gives it back. */
  lemma StoredPageSizeField(p: bv32)
    requires ValidPageSize(p)
    ensures StoredPageSize(PageSizeField(p)) == p
    ensures PageSizeTest(PageSizeField(p)) <==> p <= 0x8000
  {
  }

  function Be16Bytes(v: bv16): (r: seq<byte>)
    ensures |r| == 2
  {
    [(v >> 8) as byte, (v & 0xFF) as byte]
  }

  function Be32Bytes(v: bv32): (r: seq<byte>)
    ensures |r| == 4
  {
    [(v >> 24) as byte, ((v >> 16) & 0xFF) as byte, ((v >> 8) & 0xFF) as byte, (v & 0xFF) as byte]
  }

  lemma Be16OfBytes(v: bv16)
    ensures Be16(Be16Bytes(v), 0) == v
  {
  }

  lemma Be32OfBytes(v: bv32)
    ensures Be32(Be32Bytes(v), 0) == v
  {
  }

  lemma Be16Split(d: seq<byte>, i: nat)
    requires i + 2 <= |d|
    ensures Be16Bytes(Be16(d, i)) == d[i..i + 2]
  {
  }

  lemma Be32Split(d: seq<byte>, i: nat)
    requires i + 4 <= |d|
    ensures Be32Bytes(Be32(d, i)) == d[i..i + 4]
  {
  }

  /**
    Page 1 of a database with header h, as SQLite writes it: the magic
    string, the page size field, the fixed payload fractions and the version
    number over the bytes of `page`; the other bytes are those of `page`.
   */
  function WithHeader(h: DbHeader, page: seq<byte>): (d: seq<byte>)
    requires ValidPageSize(h.pageSize) && |page| >= 100
    ensures |d| == |page|
  {
    MAGIC + Be16Bytes(PageSizeField(h.pageSize)) + page[18..21] + [64, 32, 32]
      + page[24..96] + Be32Bytes(h.version) + page[100..]
  }

  /** Where WithHeader puts the fields the page-1 test reads. */
  lemma WithHeaderFields(h: DbHeader, page: seq<byte>)
    requires ValidPageSize(h.pageSize) && |page| >= 100
    ensures var d := WithHeader(h, page);
      d[..16] == MAGIC && Be16(d, 16) == PageSizeField(h.pageSize)
      && d[21] == 64 && d[22] == 32 && d[23] == 32 && Be32(d, 96) == h.version
  {
    var d := WithHeader(h, page);
    var ps, v := Be16Bytes(PageSizeField(h.pageSize)), Be32Bytes(h.version);
    assert d[..16] == MAGIC;
    assert d[16..18] == ps;
    assert d[96..100] == v;
    Be16OfBytes(PageSizeField(h.pageSize));
    Be32OfBytes(h.version);
    assert Be16(d, 16) == Be16(d[16..18], 0);
    assert Be32(d, 96) == Be32(d[96..100], 0);
  }

  /**
    As written, the page-1 test accepts the header of a database exactly when
    its page size is at most 32768 and its version is an SQLite 3 version: a
    database with 65536-byte pages is refused.
   */
  lemma Page1RcOfHeader(h: DbHeader, page: seq<byte>)
    requires ValidPageSize(h.pageSize) && |page| >= 100
    ensures Page1Rc(WithHeader(h, page)) == OK <==> h.pageSize <= 0x8000 && Sqlite3Version(h.version)
  {
    WithHeaderFields(h, page);
    StoredPageSizeField(h.pageSize);
  }

  /** Corrected, it accepts the header of every database whose version is an SQLite 3 version. */
  lemma Page1RcCorrectedOfHeader(h: DbHeader, page: seq<byte>)
    requires ValidPageSize(h.pageSize) && |page| >= 100
    ensures Page1RcCorrected(WithHeader(h, page)) == OK <==> Sqlite3Version(h.version)
  {
    WithHeaderFields(h, page);
    StoredPageSizeField(h.pageSize);
  }

  /** The header fields a page carries, with the page size read as the file format defines it. */
  function HeaderOf(d: seq<byte>): (h: DbHeader)
    requires |d| >= 100
    ensures h.version == Be32(d, 96)
  {
    DbHeader(StoredPageSize(Be16(d, 16)), Be32(d, 96))
  }

  /**
    Every page the corrected test accepts is page 1 of a database: it is its
    own header fields written over itself, with a valid page size and an
    SQLite 3 version.
   */
  lemma Page1RcCorrectedAccepts(d: seq<byte>)
    requires |d| >= 100 && Page1RcCorrected(d) == OK
    ensures ValidPageSize(HeaderOf(d).pageSize) && Sqlite3Version(HeaderOf(d).version)
    ensures WithHeader(HeaderOf(d), d) == d
  {
    var h := HeaderOf(d);
    assert PageSizeField(h.pageSize) == Be16(d, 16);
    Be16Split(d, 16);
    Be32Split(d, 96);
    var e := WithHeader(h, d);
    assert e[..16] == d[..16];
    assert e[16..18] == d[16..18];
    assert e[21..24] == d[21..24];
    assert e[96..100] == d[96..100];
    assert forall i | 0 <= i < |d| :: e[i] == d[i];
  }

  /** Every page the test as written accepts, the corrected test accepts too. */
  lemma Page1RcCorrectedWeakens(d: seq<byte>)
    requires |d| >= 100 && Page1Rc(d) == OK
    ensures Page1RcCorrected(d) == OK
  {
  }

  /** Page 1 of a database of SQLite 3.31.0 with 65536-byte pages is refused as not a database. */
  lemma Page1RcRefuses65536(page: seq<byte>)
    requires |page| >= 100
    ensures var d := WithHeader(DbHeader(0x1_0000, 3031000), page);
      Page1Rc(d) == NOTADB && Page1RcCorrected(d) == OK
  {
    Page1RcOfHeader(DbHeader(0x1_0000, 3031000), page);
    Page1RcCorrectedOfHeader(DbHeader(0x1_0000, 3031000), page);
  }

  /**
    `db_index_of(db, name)`: the index of the first attached database whose
    schema name is `name`; the main database, 0, when there is none or the
    name is NULL.
   */
  method DbIndexOf(names: seq<CString>, name: Option<CString>) returns (i: nat)
    ensures i == 0 || i < |names|
    ensures name.Some? && name.value in names ==>
              i < |names| && names[i] == name.value && forall j | 0 <= j < i :: names[j] != name.value
    ensures !(name.Some? && name.value in names) ==> i == 0
  {
    if name.Some? {
      i := 0;
      while i < |names|
        invariant i <= |names|
        invariant forall j | 0 <= j < i :: names[j] != name.value
      {
        if names[i] == name.value {
          return;
        }
        i := i + 1;
      }
    }
    return 0;
  }

  /**
    `sqlite3CodecGetKey(db, nDb, &zKey, &nKey)`, given the codec of each
    attached database's pager: no key bytes, and a key length that is 0 when
    database nDb has no codec and otherwise names it, 0 as -1.
   */
  method CodecGetKey(codecs: seq<Codec?>, nDb: nat) returns (zKey: Option<seq<byte>>, nKey: int)
    requires nDb < |codecs|
    ensures zKey.None?
    ensures nKey == 0 <==> codecs[nDb] == null
    ensures codecs[nDb] != null ==> ReuseIndex(nKey) == nDb
  {
    zKey := None;
    nKey := if codecs[nDb] != null then (if nDb != 0 then nDb else -1) else 0;
  }

  /** The database whose codec `sqlite3CodecAttach` copies when it is given a key length but no key. */
  function ReuseIndex(nKey: int): (mDb: nat)
    ensures nKey >= 0 ==> mDb == nKey
  {
    if nKey < 0 then 0 else nKey
  }

  /** What `sqlite3CodecAttach` does with a key: attach unencrypted, derive from the key, or copy a codec. */
  datatype AttachPlan = Unencrypted | FromKey | CopyCodecOf(mDb: nat) | Unattached

  /** The branch `sqlite3CodecAttach(db, nDb, zKey, nKey)` takes; Unattached returns SQLITE_NOMEM. */
  function PlanAttach(nDb: nat, zKey: Option<seq<byte>>, nKey: int): (p: AttachPlan)
    ensures p.Unencrypted? <==> nKey == 0
    ensures p.FromKey? <==> nKey != 0 && zKey.Some?
    ensures p.CopyCodecOf? ==> p.mDb == ReuseIndex(nKey) && nDb != 0
  {
    if nKey == 0 then Unencrypted
    else if zKey.Some? then FromKey
    else if nDb != 0 then CopyCodecOf(ReuseIndex(nKey))
    else Unattached
  }

  /**
    A database attached without a key takes what `sqlite3CodecGetKey`
    reports for database `from`: it copies that database's codec when there
    is one, and is attached unencrypted otherwise.
   */
  method AttachLikeDatabase(codecs: seq<Codec?>, from: nat, nDb: nat) returns (p: AttachPlan)
    requires from < |codecs| && nDb != 0
    ensures codecs[from] != null ==> p == CopyCodecOf(from)
    ensures codecs[from] == null ==> p == Unencrypted
  {
    var zKey, nKey := CodecGetKey(codecs, from);
    p := PlanAttach(nDb, zKey, nKey);
  }

  /** PENDING_BYTE of SQLite: the file offset of the lock byte, on a page no database uses. */
  const PENDING_BYTE: nat := 0x4000_0000

  /** PENDING_BYTE_PAGE: the page holding the lock byte. */
  function PendingBytePage(pageSize: nat): (p: nat)
    requires pageSize > 0
    ensures p >= 1 && (p - 1) * pageSize <= PENDING_BYTE < p * pageSize
  {
    PENDING_BYTE / pageSize + 1
  }

  /** The pages the re-key loop visits from `pgno` on: each page up to dbSize but the pending-byte page, in order. */
  function PagesFrom(pgno: nat, dbSize: nat, pending: nat): (pages: seq<nat>)
    ensures forall p | p in pages :: pgno <= p <= dbSize && p != pending
    decreases dbSize + 1 - pgno
  {
    if pgno > dbSize then []
    else if pgno == pending then PagesFrom(pgno + 1, dbSize, pending)
    else [pgno] + PagesFrom(pgno + 1, dbSize, pending)
  }

  /**
    The outcomes of the pager calls the re-key loop makes, which are SQLite
    internals: beginning the write transaction, getting page p, marking page
    p writable, and committing.
   */
  datatype PagerCalls = PagerCalls(begin: int, get: nat -> int, write: nat -> int, commit: int)

  /**
    The loop over `pages` from an OK result code: its final result code and
    the pages it marked writable, which the commit then writes back through
    the pager's codec.
   */
  function RekeyLoop(pages: seq<nat>, io: PagerCalls): (r: (int, seq<nat>))
    ensures |r.1| <= |pages| && r.1 == pages[..|r.1|]
    ensures r.0 != OK ==> |r.1| < |pages|
  {
    if pages == [] then (OK, [])
    else if io.get(pages[0]) != OK then (io.get(pages[0]), [])
    else if io.write(pages[0]) != OK then (io.write(pages[0]), [])
    else
      var rest := RekeyLoop(pages[1..], io);
      (rest.0, [pages[0]] + rest.1)
  }

  lemma {:induction false} PagesFromExactly(pgno: nat, dbSize: nat, pending: nat, p: nat)
    ensures p in PagesFrom(pgno, dbSize, pending) <==> pgno <= p <= dbSize && p != pending
    decreases dbSize + 1 - pgno
  {
    if pgno <= dbSize {
      PagesFromExactly(pgno + 1, dbSize, pending, p);
      var rest := PagesFrom(pgno + 1, dbSize, pending);
      if pgno != pending {
        assert PagesFrom(pgno, dbSize, pending) == [pgno] + rest;
        assert p in [pgno] + rest <==> p == pgno || p in rest;
      } else {
        assert PagesFrom(pgno, dbSize, pending) == rest;
      }
    } else {
      assert PagesFrom(pgno, dbSize, pending) == [];
    }
  }

  /** Strictly ascending, hence without repetitions. */
  predicate Ascending(s: seq<nat>)
  {
    forall i, j | 0 <= i < j < |s| :: s[i] < s[j]
  }

  lemma {:induction false} PagesFromIncreasing(pgno: nat, dbSize: nat, pending: nat)
    ensures Ascending(PagesFrom(pgno, dbSize, pending))
    decreases dbSize + 1 - pgno
  {
    if pgno <= dbSize {
      PagesFromIncreasing(pgno + 1, dbSize, pending);
      var rest := PagesFrom(pgno + 1, dbSize, pending);
      forall k | 0 <= k < |rest|
        ensures pgno < rest[k]
      {
        PagesFromExactly(pgno + 1, dbSize, pending, rest[k]);
      }
      if pgno != pending {
        var pages := [pgno] + rest;
        assert PagesFrom(pgno, dbSize, pending) == pages;
        forall i, j | 0 <= i < j < |pages|
          ensures pages[i] < pages[j]
        {
          assert pages[j] == rest[j - 1];
          if i > 0 {
            assert pages[i] == rest[i - 1];
            assert rest[i - 1] < rest[j - 1];
          }
        }
      } else {
        assert PagesFrom(pgno, dbSize, pending) == rest;
      }
    }
  }

  /**
    The pages the re-key loop rewrites: every page of the database but the
    pending-byte page, each once and in ascending order.
   */
  lemma RekeyPages(dbSize: nat, pending: nat)
    ensures var pages := PagesFrom(1, dbSize, pending);
      (forall p: nat :: p in pages <==> 1 <= p <= dbSize && p != pending) && Ascending(pages)
  {
    forall p: nat
      ensures p in PagesFrom(1, dbSize, pending) <==> 1 <= p <= dbSize && p != pending
    {
      PagesFromExactly(1, dbSize, pending, p);
    }
    PagesFromIncreasing(1, dbSize, pending);
  }

  /**
    The loop succeeds exactly when every page it visits can be got and
    written, and then it marks all of them; when it fails it has marked a
    prefix of them, and its result code is that of the page after the prefix.
   */
  lemma {:induction false} RekeyLoopOutcome(pages: seq<nat>, io: PagerCalls)
    ensures var r := RekeyLoop(pages, io);
      (r.0 == OK <==> forall i | 0 <= i < |pages| :: io.get(pages[i]) == OK && io.write(pages[i]) == OK)
      && (r.0 == OK ==> r.1 == pages)
      && (r.0 != OK ==>
            |r.1| < |pages| && r.1 == pages[..|r.1|]
            && r.0 == (if io.get(pages[|r.1|]) != OK then io.get(pages[|r.1|]) else io.write(pages[|r.1|])))
  {
    if pages != [] && io.get(pages[0]) == OK && io.write(pages[0]) == OK {
      var rest := RekeyLoop(pages[1..], io);
      RekeyLoopOutcome(pages[1..], io);
      if rest.0 == OK {
        forall i | 0 <= i < |pages|
          ensures io.get(pages[i]) == OK && io.write(pages[i]) == OK
        {
          if i > 0 {
            assert pages[i] == pages[1..][i - 1];
          }
        }
      } else {
        assert pages[1..][|rest.1|] == pages[1 + |rest.1|];
        assert [pages[0]] + rest.1 == pages[..1 + |rest.1|];
      }
    }
  }

  /**
    The page loop of `sqlite3_rekey_v2`, from the result code of beginning the
    write transaction: while the result code is OK, every page up to dbSize
    but the pending-byte page is got and marked writable.
   */
  method RewritePages(dbSize: nat, pending: nat, io: PagerCalls, rc0: int) returns (rc: int, marked: seq<nat>)
    ensures rc0 != OK ==> rc == rc0 && marked == []
    ensures rc0 == OK ==> (rc, marked) == RekeyLoop(PagesFrom(1, dbSize, pending), io)
  {
    rc, marked := rc0, [];
    ghost var total := RekeyLoop(PagesFrom(1, dbSize, pending), io);
    var pgno: nat := 1;
    assert [] + total.1 == total.1;
    while rc == OK && pgno <= dbSize
      invariant rc0 != OK ==> rc == rc0 && marked == []
      invariant rc0 == OK && rc == OK ==>
        var todo := RekeyLoop(PagesFrom(pgno, dbSize, pending), io);
        total == (todo.0, marked + todo.1)
      invariant rc0 == OK && rc != OK ==> total == (rc, marked)
      decreases dbSize + 1 - pgno
    {
      if pgno == pending {
        assert PagesFrom(pgno, dbSize, pending) == PagesFrom(pgno + 1, dbSize, pending);
        pgno := pgno + 1;
        continue;
      }
      ghost var rest := PagesFrom(pgno + 1, dbSize, pending);
      ghost var todo := RekeyLoop(rest, io);
      RekeyLoopStep(pgno, dbSize, pending, io);
      rc := io.get(pgno);
      if rc == OK {
        rc := io.write(pgno);
        if rc == OK {
          assert marked + ([pgno] + todo.1) == marked + [pgno] + todo.1;
          marked := marked + [pgno];
        } else {
          assert marked + [] == marked;
        }
      } else {
        assert marked + [] == marked;
      }
      pgno := pgno + 1;
    }
    if rc0 == OK && rc == OK {
      assert PagesFrom(pgno, dbSize, pending) == [];
      assert marked + [] == marked;
    }
  }

  /** One page of the loop: a page it visits is got, then marked, then the loop goes on. */
  lemma RekeyLoopStep(pgno: nat, dbSize: nat, pending: nat, io: PagerCalls)
    requires pgno <= dbSize && pgno != pending
    ensures var rest := RekeyLoop(PagesFrom(pgno + 1, dbSize, pending), io);
      RekeyLoop(PagesFrom(pgno, dbSize, pending), io)
        == if io.get(pgno) != OK then (io.get(pgno), [])
           else if io.write(pgno) != OK then (io.write(pgno), [])
           else (rest.0, [pgno] + rest.1)
  {
    var rest := PagesFrom(pgno + 1, dbSize, pending);
    assert PagesFrom(pgno, dbSize, pending) == [pgno] + rest;
    assert ([pgno] + rest)[1..] == rest;
  }

  /**
    The change-key branch of `sqlite3_rekey_v2` (the database has a codec,
    `reader`, and `codec` was made for the new key): the reader writes
    through the new codec, which shares its page buffer, while every page is
    rewritten in one transaction. After a commit the reader gives up the
    buffer and the result is that of attaching the new codec (`setRc`);
    otherwise the reader writes through itself again and the transaction is
    rolled back. The pages rewritten are `marked`.
   */
  method ChangeKey(reader: Codec, codec: Codec, dbSize: nat, pageSize: nat, io: PagerCalls, setRc: int)
    returns (rc: int, marked: seq<nat>)
    requires reader != codec && pageSize > 0
    modifies reader, codec
    ensures var loop := if io.begin != OK then (io.begin, [])
                        else RekeyLoop(PagesFrom(1, dbSize, PendingBytePage(pageSize)), io);
      marked == loop.1
      && (loop.0 == OK && io.commit == OK ==> rc == setRc && reader.writer == codec && reader.pagebuf == null)
      && (loop.0 != OK ==> rc == loop.0 && reader.writer == reader && reader.pagebuf == old(reader.pagebuf))
      && (loop.0 == OK && io.commit != OK ==>
            rc == io.commit && reader.writer == reader && reader.pagebuf == old(reader.pagebuf))
    ensures codec.pagebuf == old(reader.pagebuf)
    ensures reader.State() == old(reader.State()) && reader.reader == old(reader.reader)
    ensures codec.State() == old(codec.State()) && codec.reader == old(codec.reader) && codec.writer == old(codec.writer)
  {
    reader.writer := codec;
    codec.pagebuf := reader.pagebuf;
    rc, marked := RewritePages(dbSize, PendingBytePage(pageSize), io, io.begin);
    if rc == OK && io.commit == OK {
      reader.pagebuf := null;
      rc := setRc;
    } else {
      if rc == OK {
        rc := io.commit;
      }
      reader.writer := reader;
    }
  }
}
