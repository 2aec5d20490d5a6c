/**
  The parts of the SQLite API that the sqleet codec calls and whose
  meaning it relies on: result codes, the query parameters of a database
  URI (`sqlite3_uri_parameter`) and their integer reading
  (`sqlite3_uri_int64`).
 */
module Sqlite {
  import opened Bytes

  const OK: int := 0
  const INTERNAL: int := 2
  const ABORT: int := 4
  const BUSY: int := 5
  const NOMEM: int := 7
  const NOTFOUND: int := 12
  const EMPTY: int := 16
  const MISUSE: int := 21
  const AUTH: int := 23
  const NOTADB: int := 26

  /** A C string: its bytes without the terminating NUL (none of them is NUL). */
  type CString = seq<byte>

  /**
    The query parameters of a database URI, by name. A parameter given
    without a value maps to the empty string. A NULL or empty file name
    has no parameters.
   */
  type Query = map<string, CString>

  /** `sqlite3_uri_parameter(zUri, name)`: the value, or NULL when the parameter is absent. */
  function Parameter(q: Query, name: string): (v: Option<CString>)
    ensures v.Some? <==> name in q
    ensures v.Some? ==> v.value == q[name]
  {
    if name in q then Some(q[name]) else None
  }

  const Two31: int := 0x8000_0000
  const Two32: int := 0x1_0000_0000
  const Two63: int := 0x8000_0000_0000_0000

  predicate IsDigit(b: byte)
  {
    0x30 <= b <= 0x39
  }

  function DigitValue(b: byte): (d: nat)
    requires IsDigit(b)
    ensures d < 10
  {
    if b <= 0x34 then
      if b == 0x30 then 0 else if b == 0x31 then 1 else if b == 0x32 then 2 else if b == 0x33 then 3 else 4
    else
      if b == 0x35 then 5 else if b == 0x36 then 6 else if b == 0x37 then 7 else if b == 0x38 then 8 else 9
  }

  predicate AllDigits(s: seq<byte>)
  {
    forall i | 0 <= i < |s| :: IsDigit(s[i])
  }

  /** The value of a run of decimal digits, most significant first. */
  function Decimal(s: seq<byte>): nat
    requires AllDigits(s)
  {
    if s == [] then 0 else Decimal(s[..|s| - 1]) * 10 + DigitValue(s[|s| - 1])
  }

  /** `sqlite3Isspace`: space, tab, newline, vertical tab, form feed, carriage return. */
  predicate IsSpace(b: byte)
  {
    b == 0x20 || 0x09 <= b <= 0x0D
  }

  predicate IsZero(b: byte)
  {
    b == 0x30
  }

  /** The bytes `"+- \n\t0123456789"` that bound the decimal text handed to the parser. */
  predicate InDecimalSpan(b: byte)
  {
    b == 0x2B || b == 0x2D || b == 0x20 || b == 0x0A || b == 0x09 || IsDigit(b)
  }

  /** `sqlite3Isxdigit` */
  predicate IsHexDigit(b: byte)
  {
    IsDigit(b) || 0x41 <= b <= 0x46 || 0x61 <= b <= 0x66
  }

  /** `sqlite3HexToInt` */
  function HexDigitValue(b: byte): (d: nat)
    requires IsHexDigit(b)
    ensures d < 16
  {
    if IsDigit(b) then DigitValue(b)
    else if b == 0x41 || b == 0x61 then 10 else if b == 0x42 || b == 0x62 then 11
    else if b == 0x43 || b == 0x63 then 12 else if b == 0x44 || b == 0x64 then 13
    else if b == 0x45 || b == 0x65 then 14 else 15
  }

  predicate AllHexDigits(s: seq<byte>)
  {
    forall i | 0 <= i < |s| :: IsHexDigit(s[i])
  }

  /** The value of a run of hexadecimal digits, most significant first. */
  function HexValue(s: seq<byte>): nat
    requires AllHexDigits(s)
  {
    if s == [] then 0 else HexValue(s[..|s| - 1]) * 16 + HexDigitValue(s[|s| - 1])
  }

  /** The number of bytes at the front of s that satisfy p: `strspn`, and the parsers' skipping loops. */
  function Leading(s: seq<byte>, p: byte -> bool): (n: nat)
    ensures n <= |s|
    ensures forall i | 0 <= i < n :: p(s[i])
    ensures n < |s| ==> !p(s[n])
  {
    if s == [] || !p(s[0]) then 0 else 1 + Leading(s[1..], p)
  }

  /** The `memcpy` of a `u64` into an `i64`: two's complement reinterpretation. */
  function Signed64(u: nat): (v: int)
    requires u < 2 * Two63
    ensures -Two63 <= v < Two63
    ensures (v - u) % (2 * Two63) == 0
  {
    if u < Two63 then u else u - 2 * Two63
  }

  /**
    `sqlite3Atoi64` on the bytes of s (UTF-8): leading white space, an
    optional sign, leading zeros, then digits, and nothing after them but
    white space. There must be a digit (a zero counts), and the value must
    fit in 64 bits; -2^63 does, 2^63 does not.
   */
  function Atoi64(s: seq<byte>): (r: Option<int>)
    ensures r.Some? ==> -Two63 <= r.value < Two63
  {
    var t := s[Leading(s, IsSpace)..];
    var neg := |t| > 0 && t[0] == 0x2D;
    var u := if |t| > 0 && (t[0] == 0x2D || t[0] == 0x2B) then t[1..] else t;
    var zeros := Leading(u, IsZero);
    var w := u[zeros..];
    var digits := w[..Leading(w, IsDigit)];
    var after := w[|digits|..];
    if zeros == 0 && digits == [] then None
    else if exists i | 0 <= i < |after| :: !IsSpace(after[i]) then None
    else
      var d: int := Decimal(digits);
      if neg && d <= Two63 then Some(-d)
      else if !neg && d < Two63 then Some(d)
      else None
  }

  /**
    `sqlite3DecOrHexToI64`: `0x` or `0X` followed by a hex digit reads up
    to 16 significant hex digits, which must end the string, as a 64-bit
    pattern; anything else goes to `sqlite3Atoi64`, limited to the run of
    bytes from `"+- \n\t0123456789"` and one byte more.
   */
  function DecOrHexToI64(z: CString): (r: Option<int>)
    ensures r.Some? ==> -Two63 <= r.value < Two63
  {
    if IsHexText(z) then HexToI64(z)
    else
      var n := Leading(z, InDecimalSpan);
      Atoi64(z[..if n < |z| then n + 1 else n])
  }

  predicate IsHexText(z: CString)
  {
    |z| >= 3 && z[0] == 0x30 && (z[1] == 0x78 || z[1] == 0x58) && IsHexDigit(z[2])
  }

  /** The hexadecimal branch: leading zeros skipped, the 64-bit value of the rest. */
  function HexToI64(z: CString): (r: Option<int>)
    requires IsHexText(z)
    ensures r.Some? ==> -Two63 <= r.value < Two63
  {
    var i := 2 + Leading(z[2..], IsZero);
    var k := i + Leading(z[i..], IsHexDigit);
    if k - i > 16 || k < |z| then None
    else Some(Signed64(HexValue(z[i..k]) % (2 * Two63)))
  }

  /** Leading zeros add nothing to a decimal value. */
  lemma {:induction false} DecimalZeros(z: seq<byte>, s: seq<byte>)
    requires (forall i | 0 <= i < |z| :: IsZero(z[i])) && AllDigits(s)
    ensures AllDigits(z + s) && Decimal(z + s) == Decimal(s)
    decreases |s|
  {
    if s == [] {
      assert z + s == z;
      ZerosDecimal(z);
    } else {
      DecimalZeros(z, s[..|s| - 1]);
      assert (z + s)[..|z + s| - 1] == z + s[..|s| - 1];
    }
  }

  lemma {:induction false} ZerosDecimal(z: seq<byte>)
    requires forall i | 0 <= i < |z| :: IsZero(z[i])
    ensures AllDigits(z) && Decimal(z) == 0
  {
    if z != [] {
      ZerosDecimal(z[..|z| - 1]);
    }
  }

  /** Leading zeros add nothing to a hexadecimal value. */
  lemma {:induction false} HexZeros(z: seq<byte>, s: seq<byte>)
    requires (forall i | 0 <= i < |z| :: IsZero(z[i])) && AllHexDigits(s)
    ensures AllHexDigits(z + s) && HexValue(z + s) == HexValue(s)
    decreases |s|
  {
    if s == [] {
      assert z + s == z;
      ZerosHex(z);
    } else {
      HexZeros(z, s[..|s| - 1]);
      assert (z + s)[..|z + s| - 1] == z + s[..|s| - 1];
    }
  }

  lemma {:induction false} ZerosHex(z: seq<byte>)
    requires forall i | 0 <= i < |z| :: IsZero(z[i])
    ensures AllHexDigits(z) && HexValue(z) == 0
  {
    if z != [] {
      ZerosHex(z[..|z| - 1]);
    }
  }

  /** A run of decimal digits whose value fits in 64 bits reads as that value. */
  lemma DecimalParses(s: CString)
    requires s != [] && AllDigits(s) && Decimal(s) < Two63
    ensures DecOrHexToI64(s) == Some(Decimal(s))
  {
    LeadingAll(s, InDecimalSpan);
    assert s[..|s|] == s;
    AtoiDigits(s);
  }

  /** Atoi64 of a run of digits (no space, no sign, no trailing bytes). */
  lemma AtoiDigits(s: seq<byte>)
    requires s != [] && AllDigits(s)
    ensures Atoi64(s) == if Decimal(s) < Two63 then Some(Decimal(s)) else None
  {
    assert !IsSpace(s[0]);
    var t := s[Leading(s, IsSpace)..];
    assert t == s;
    assert !(t[0] == 0x2D || t[0] == 0x2B);
    var zeros := Leading(s, IsZero);
    var w := s[zeros..];
    LeadingAll(w, IsDigit);
    var digits := w[..Leading(w, IsDigit)];
    assert digits == w;
    var after := w[|digits|..];
    assert after == [];
    assert s == s[..zeros] + w;
    DecimalZeros(s[..zeros], w);
    assert !(zeros == 0 && digits == []);
  }

  /** `0x` and one to sixteen hex digits read as their 64-bit pattern. */
  lemma HexParses(h: seq<byte>)
    requires 1 <= |h| <= 16 && AllHexDigits(h)
    ensures DecOrHexToI64([0x30, 0x78] + h) == Some(Signed64(HexValue(h) % (2 * Two63)))
  {
    var z := [0x30, 0x78] + h;
    assert z[0] == 0x30 && z[1] == 0x78 && z[2] == h[0];
    assert z[2..] == h;
    HexDigitsValue(z, h);
  }

  /** The hexadecimal branch on `0x` followed by the digits h. */
  lemma HexDigitsValue(z: CString, h: seq<byte>)
    requires IsHexText(z) && z[2..] == h && |h| <= 16 && AllHexDigits(h)
    ensures HexToI64(z) == Some(Signed64(HexValue(h) % (2 * Two63)))
  {
    var zeros := Leading(h, IsZero);
    var rest := h[zeros..];
    SignificantHex(h, zeros, rest);
    var i := 2 + Leading(z[2..], IsZero);
    assert i == 2 + zeros;
    assert z[i..] == rest;
    var k := i + Leading(z[i..], IsHexDigit);
    assert k == |z| && k - i <= 16;
    assert z[i..k] == rest;
  }

  /** What follows the leading zeros of a run of hex digits: all hex digits, of the same value. */
  lemma SignificantHex(h: seq<byte>, zeros: nat, rest: seq<byte>)
    requires AllHexDigits(h) && zeros == Leading(h, IsZero) && rest == h[zeros..]
    ensures Leading(rest, IsHexDigit) == |rest| && AllHexDigits(rest) && HexValue(rest) == HexValue(h)
  {
    LeadingAll(rest, IsHexDigit);
    assert h == h[..zeros] + rest;
    HexZeros(h[..zeros], rest);
  }

  /** When every byte satisfies p, Leading takes them all. */
  lemma {:induction false} LeadingAll(s: seq<byte>, p: byte -> bool)
    requires forall i | 0 <= i < |s| :: p(s[i])
    ensures Leading(s, p) == |s|
  {
    if s != [] {
      LeadingAll(s[1..], p);
    }
  }

  /** `sqlite3_uri_int64(zUri, name, dflt)`: the parameter's integer value, or dflt. */
  function UriInt64(q: Query, name: string, dflt: int): (v: int)
    ensures name !in q ==> v == dflt
    ensures name in q && DecOrHexToI64(q[name]).Some? ==> v == DecOrHexToI64(q[name]).value
    ensures name in q && DecOrHexToI64(q[name]).None? ==> v == dflt
  {
    match Parameter(q, name)
    case None => dflt
    case Some(s) => match DecOrHexToI64(s) case Some(x) => x case None => dflt
  }

  /** The C conversion `(int)v` of a 64-bit value: two's complement truncation to 32 bits. */
  function Int32(v: int): (r: int)
    ensures -Two31 <= r < Two31
    ensures (r - v) % Two32 == 0
    ensures -Two31 <= v < Two31 ==> r == v
  {
    var m := v % Two32;
    if m >= Two31 then m - Two32 else m
  }

  /** A positive number with a single bit set: what `x > 0 && !(x & (x - 1))` tests. */
  predicate PowerOfTwo(x: int)
    decreases x
  {
    x == 1 || (x > 1 && x % 2 == 0 && PowerOfTwo(x / 2))
  }
}
