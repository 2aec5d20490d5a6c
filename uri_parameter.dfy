/**
  `codec_uri_parameter`: reads a fixed-size byte parameter (the salt or the
  header) of the sqleet codec from a database URI, either raw (`salt=...`)
  or hex-encoded (`hexsalt=...`), into a `lenMax`-byte field of the codec.
 */
module SqleetUri {
  import opened Bytes
  import opened Sqlite

  /** The value of a hex digit, or None for any other byte. */
  function Nibble(c: byte): (d: Option<byte>)
    ensures d.Some? ==> d.value < 16
  {
    if 0x30 <= c <= 0x39 then Some(c - 0x30)
    else if 0x41 <= c <= 0x46 then Some(c - 0x41 + 10)
    else if 0x61 <= c <= 0x66 then Some(c - 0x61 + 10)
    else None
  }

  predicate IsHex(c: byte)
  {
    Nibble(c).Some?
  }

  predicate AllHex(s: seq<byte>)
  {
    forall i | 0 <= i < |s| :: IsHex(s[i])
  }

  /** Shifts one more digit into a byte: `(o << 4) | d`. */
  function Push(o: byte, d: byte): byte
  {
    (o << 4) | d
  }

  /** The byte written by two hex digits, high one first. */
  function Pair(hi: byte, lo: byte): byte
    requires IsHex(hi) && IsHex(lo)
  {
    (Nibble(hi).value << 4) | Nibble(lo).value
  }

  /**
    The bytes a run of hex digits stands for, two digits per byte, a
    trailing odd digit giving the high half of a last byte.
   */
  function Unhex(ds: seq<byte>): (r: seq<byte>)
    requires AllHex(ds)
    ensures |r| == (|ds| + 1) / 2
  {
    if |ds| == 0 then []
    else if |ds| == 1 then [Nibble(ds[0]).value << 4]
    else [Pair(ds[0], ds[1])] + Unhex(ds[2..])
  }

  /** The length of the run of hex digits that starts `h`, at most `limit`. */
  function HexDigits(h: seq<byte>, limit: nat): (n: nat)
    ensures n <= limit && n <= |h|
    ensures AllHex(h[..n])
    ensures n < limit && n < |h| ==> !IsHex(h[n])
  {
    if limit == 0 || |h| == 0 || !IsHex(h[0]) then 0
    else
      var n := 1 + HexDigits(h[1..], limit - 1);
      assert h[..n] == [h[0]] + h[1..][..n - 1];
      n
  }

  /**
    The decoding loop from digit `i` on: each digit is shifted into byte
    `i / 2`; the loop stops at `limit`, at the end of the string or at the
    first byte that is not a hex digit. Yields the digit count and the bytes.
   */
  function HexScan(h: seq<byte>, limit: nat, i: nat, o: seq<byte>): (r: (nat, seq<byte>))
    requires i <= limit <= 2 * |o|
    ensures i <= r.0 <= limit && |r.1| == |o|
    decreases limit - i
  {
    if i < limit && i < |h| && IsHex(h[i])
    then HexScan(h, limit, i + 1, o[i / 2 := Push(o[i / 2], Nibble(h[i]).value)])
    else (i, o)
  }

  /** The zeroing loop `for (k = k; k < lenMax; out[k++] = 0)`. */
  function ZeroFill(o: seq<byte>, k: nat, lenMax: nat): (r: seq<byte>)
    requires lenMax <= |o|
    ensures |r| == |o|
    decreases lenMax - k
  {
    if k >= lenMax then o else ZeroFill(o[k := 0], k + 1, lenMax)
  }

  /**
    After `i` digits: an odd last digit is moved to the high half of its
    byte, and the bytes after the decoded ones are zeroed up to `lenMax`.
   */
  function HexFinish(i: nat, o: seq<byte>, lenMax: nat): (r: seq<byte>)
    requires i <= 2 * lenMax && lenMax <= |o|
    ensures |r| == |o|
  {
    var o1 := if i % 2 == 1 then o[i / 2 := o[i / 2] << 4] else o;
    ZeroFill(o1, (i + 1) / 2, lenMax)
  }

  /**
    The result code and the new contents of `out` after
    `codec_uri_parameter(zUri, parameter, lenMin, lenMax, out)`.
    A failed hex decoding leaves the digits it did shift in.
   */
  function UriParameter(q: Query, parameter: string, lenMin: nat, lenMax: nat, out: seq<byte>)
    : (r: (int, seq<byte>))
    requires lenMax <= |out|
    ensures |r.1| == |out|
    ensures r.0 == OK || r.0 == MISUSE || r.0 == EMPTY || r.0 == NOTFOUND
    ensures r.0 == NOTFOUND <==> parameter !in q && "hex" + parameter !in q && lenMin <= lenMax
  {
    var hex := Parameter(q, "hex" + parameter);
    var val := Parameter(q, parameter);
    if (val.Some? && hex.Some?) || lenMin > lenMax then (MISUSE, out)
    else if val.Some? then
      var len := |val.value|;
      if lenMin <= len <= lenMax then (OK, val.value + Zeros(lenMax - len) + out[lenMax..])
      else (if len > 0 then MISUSE else EMPTY, out)
    else if hex.Some? then
      var (i, o) := HexScan(hex.value, 2 * lenMax, 0, out);
      if 2 * lenMin <= i <= 2 * lenMax then (OK, HexFinish(i, o, lenMax))
      else (if i > 0 then MISUSE else EMPTY, o)
    else (NOTFOUND, out)
  }

  /** The decoding loop `for (i = 0; i < limit && h[i]; i++) { ... out[i/2] = (out[i/2] << 4) | c; }`. */
  method DecodeHex(h: seq<byte>, limit: nat, out: seq<byte>) returns (i: nat, out': seq<byte>)
    requires limit <= 2 * |out|
    ensures (i, out') == HexScan(h, limit, 0, out)
  {
    i, out' := 0, out;
    while i < limit && i < |h|
      invariant i <= limit && |out'| == |out|
      invariant HexScan(h, limit, i, out') == HexScan(h, limit, 0, out)
      decreases limit - i
    {
      var c := h[i];
      var d: byte;
      if 0x30 <= c <= 0x39 {
        d := c - 0x30;
      } else if 0x41 <= c <= 0x46 {
        d := c - 0x41 + 10;
      } else if 0x61 <= c <= 0x66 {
        d := c - 0x61 + 10;
      } else {
        break;
      }
      out' := out'[i / 2 := Push(out'[i / 2], d)];
      i := i + 1;
    }
  }

  /** `codec_uri_parameter`, with the decoding and zeroing loops of the source. */
  method CodecUriParameter(q: Query, parameter: string, lenMin: nat, lenMax: nat, out: seq<byte>)
    returns (rc: int, out': seq<byte>)
    requires lenMax <= |out|
    ensures (rc, out') == UriParameter(q, parameter, lenMin, lenMax, out)
  {
    var hex := Parameter(q, "hex" + parameter);
    var val := Parameter(q, parameter);
    out' := out;
    if (val.Some? && hex.Some?) || lenMin > lenMax {
      rc := MISUSE;
    } else if val.Some? {
      var len := |val.value|;
      if lenMin <= len <= lenMax {
        out' := val.value + Zeros(lenMax - len) + out[lenMax..];
        rc := OK;
      } else {
        rc := if len > 0 then MISUSE else EMPTY;
      }
    } else if hex.Some? {
      var i: nat;
      i, out' := DecodeHex(hex.value, 2 * lenMax, out);
      if 2 * lenMin <= i <= 2 * lenMax {
        ghost var digits, decoded := i, out';
        if i % 2 == 1 {
          out' := out'[i / 2 := out'[i / 2] << 4];
          i := i + 1;
        }
        var k := i / 2;
        while k < lenMax
          invariant i / 2 <= k <= lenMax && |out'| == |out|
          invariant ZeroFill(out', k, lenMax) == HexFinish(digits, decoded, lenMax)
        {
          out' := out'[k := 0];
          k := k + 1;
        }
        rc := OK;
      } else {
        rc := if i > 0 then MISUSE else EMPTY;
      }
    } else {
      rc := NOTFOUND;
    }
  }

  /** Both spellings of the parameter, or bounds that admit no length: misuse, `out` untouched. */
  lemma UriConflict(q: Query, parameter: string, lenMin: nat, lenMax: nat, out: seq<byte>)
    requires lenMax <= |out|
    requires (parameter in q && "hex" + parameter in q) || lenMin > lenMax
    ensures UriParameter(q, parameter, lenMin, lenMax, out) == (MISUSE, out)
  {
  }

  /**
    A raw value is accepted exactly when its length is within bounds; it is
    then copied and zero-padded to `lenMax` bytes. Otherwise `out` is
    untouched and the code tells an empty value from a wrong-sized one.
   */
  lemma UriRawValue(q: Query, parameter: string, lenMin: nat, lenMax: nat, out: seq<byte>)
    requires lenMin <= lenMax <= |out|
    requires parameter in q && "hex" + parameter !in q
    ensures var v := q[parameter];
            var r := UriParameter(q, parameter, lenMin, lenMax, out);
            && (r.0 == OK <==> lenMin <= |v| <= lenMax)
            && (r.0 == OK ==> r.1[..lenMax] == v + Zeros(lenMax - |v|) && r.1[lenMax..] == out[lenMax..])
            && (r.0 != OK ==> r.1 == out && r.0 == if |v| == 0 then EMPTY else MISUSE)
  {
    var v := q[parameter];
    if lenMin <= |v| <= lenMax {
      var w := v + Zeros(lenMax - |v|) + out[lenMax..];
      assert w[..lenMax] == v + Zeros(lenMax - |v|);
      assert w[lenMax..] == out[lenMax..];
    }
  }

  lemma PushTwice(x: byte, a: byte, b: byte)
    requires a < 16 && b < 16
    ensures Push(Push(x, a), b) == (a << 4) | b
  {
  }

  lemma PushShift(x: byte, a: byte)
    requires a < 16
    ensures Push(x, a) << 4 == a << 4
  {
  }

  /** Byte `k` of an unhexed run. */
  lemma {:induction false} UnhexAt(ds: seq<byte>, k: nat)
    requires AllHex(ds) && k < (|ds| + 1) / 2
    ensures 2 * k + 1 < |ds| ==> Unhex(ds)[k] == Pair(ds[2 * k], ds[2 * k + 1])
    ensures 2 * k + 1 == |ds| ==> Unhex(ds)[k] == Nibble(ds[2 * k]).value << 4
  {
    if 2 * k + 1 < |ds| {
      UnhexPairAt(ds, k);
    } else {
      UnhexLastAt(ds, k);
    }
  }

  lemma {:induction false} UnhexPairAt(ds: seq<byte>, k: nat)
    requires AllHex(ds) && 2 * k + 1 < |ds|
    ensures Unhex(ds)[k] == Pair(ds[2 * k], ds[2 * k + 1])
  {
    if k > 0 {
      assert AllHex(ds[2..]);
      UnhexPairAt(ds[2..], k - 1);
    }
  }

  lemma {:induction false} UnhexLastAt(ds: seq<byte>, k: nat)
    requires AllHex(ds) && 2 * k + 1 == |ds|
    ensures Unhex(ds)[k] == Nibble(ds[2 * k]).value << 4
  {
    if k > 0 {
      assert AllHex(ds[2..]);
      UnhexLastAt(ds[2..], k - 1);
    }
  }

  /** What the decoding loop has done after `n` digits of `h`, starting from `out`. */
  ghost predicate Decoded(h: seq<byte>, n: nat, r: seq<byte>, out: seq<byte>)
  {
    && n <= |h| && n <= 2 * |out| && |r| == |out|
    && (forall j | 0 <= j < n :: IsHex(h[j]))
    && (forall k | 0 <= k < n / 2 :: r[k] == Pair(h[2 * k], h[2 * k + 1]))
    && (n % 2 == 1 ==> r[n / 2] == Push(out[n / 2], Nibble(h[n - 1]).value))
    && (forall k | (n + 1) / 2 <= k < |r| :: r[k] == out[k])
  }

  /** The decoding loop stops at the first non-digit, at the end of `h` or at `limit`. */
  lemma {:induction false} ScanDecodes(h: seq<byte>, limit: nat, i: nat, o: seq<byte>, out: seq<byte>)
    requires i <= limit <= 2 * |out| && Decoded(h, i, o, out)
    ensures var (n, r) := HexScan(h, limit, i, o);
            && Decoded(h, n, r, out) && n <= limit
            && (n < limit && n < |h| ==> !IsHex(h[n]))
    decreases limit - i
  {
    if i < limit && i < |h| && IsHex(h[i]) {
      var o' := o[i / 2 := Push(o[i / 2], Nibble(h[i]).value)];
      DecodedStep(h, i, o, out);
      ScanDecodes(h, limit, i + 1, o', out);
    }
  }

  /** One more digit shifted in keeps the decoding invariant. */
  lemma DecodedStep(h: seq<byte>, i: nat, o: seq<byte>, out: seq<byte>)
    requires i < |h| && i < 2 * |out| && IsHex(h[i]) && Decoded(h, i, o, out)
    ensures Decoded(h, i + 1, o[i / 2 := Push(o[i / 2], Nibble(h[i]).value)], out)
  {
    var d := Nibble(h[i]).value;
    var o' := o[i / 2 := Push(o[i / 2], d)];
    if i % 2 == 1 {
      PushTwice(out[i / 2], Nibble(h[i - 1]).value, d);
      assert o'[i / 2] == Pair(h[i - 1], h[i]);
    }
  }

  /** HexDigits is the stopping point the decoding loop reaches. */
  lemma ScanStops(h: seq<byte>, limit: nat, n: nat)
    requires n <= limit && n <= |h| && forall j | 0 <= j < n :: IsHex(h[j])
    requires n < limit && n < |h| ==> !IsHex(h[n])
    ensures n == HexDigits(h, limit)
  {
  }

  lemma {:induction false} ZeroFillIs(o: seq<byte>, k: nat, lenMax: nat)
    requires k <= lenMax <= |o|
    ensures ZeroFill(o, k, lenMax) == o[..k] + Zeros(lenMax - k) + o[lenMax..]
    decreases lenMax - k
  {
    if k < lenMax {
      ZeroFillIs(o[k := 0], k + 1, lenMax);
      assert o[k := 0][..k + 1] + Zeros(lenMax - (k + 1)) == o[..k] + Zeros(lenMax - k);
    }
  }

  /**
    A hex value: the digits that start it, up to `2 * lenMax` of them, are
    decoded two per byte and the rest of the `lenMax` bytes zeroed, provided
    there are at least `2 * lenMin` digits. A longer value is cut at
    `2 * lenMax` digits rather than refused.
   */
  lemma UriHexValue(q: Query, parameter: string, lenMin: nat, lenMax: nat, out: seq<byte>)
    requires lenMin <= lenMax <= |out|
    requires parameter !in q && "hex" + parameter in q
    ensures var h := q["hex" + parameter];
            var n := HexDigits(h, 2 * lenMax);
            var r := UriParameter(q, parameter, lenMin, lenMax, out);
            && (r.0 == OK <==> 2 * lenMin <= n)
            && (r.0 == OK ==> r.1 == Unhex(h[..n]) + Zeros(lenMax - (n + 1) / 2) + out[lenMax..])
            && (r.0 != OK ==> r.0 == if n == 0 then EMPTY else MISUSE)
  {
    var h := q["hex" + parameter];
    var (i, o) := HexScan(h, 2 * lenMax, 0, out);
    ScanDecodes(h, 2 * lenMax, 0, out, out);
    ScanStops(h, 2 * lenMax, i);
    if 2 * lenMin <= i {
      FinishDecoded(h, i, o, out, lenMax);
    }
  }

  /** Finishing a decoding of `n` digits yields their bytes, zero padding, and the untouched rest. */
  lemma FinishDecoded(h: seq<byte>, n: nat, o: seq<byte>, out: seq<byte>, lenMax: nat)
    requires n <= 2 * lenMax && lenMax <= |out| && Decoded(h, n, o, out)
    ensures HexFinish(n, o, lenMax) == Unhex(h[..n]) + Zeros(lenMax - (n + 1) / 2) + out[lenMax..]
  {
    var o1 := if n % 2 == 1 then o[n / 2 := o[n / 2] << 4] else o;
    if n % 2 == 1 {
      PushShift(out[n / 2], Nibble(h[n - 1]).value);
    }
    ZeroFillIs(o1, (n + 1) / 2, lenMax);
    var ds := h[..n];
    var want := Unhex(ds) + Zeros(lenMax - (n + 1) / 2) + out[lenMax..];
    assert AllHex(ds);
    forall k | 0 <= k < |out|
      ensures HexFinish(n, o, lenMax)[k] == want[k]
    {
      if k < (n + 1) / 2 {
        UnhexAt(ds, k);
      }
    }
  }
}
