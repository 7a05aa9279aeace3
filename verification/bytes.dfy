/** Reading the on-disk byte layouts: fixed-width unsigned fields under a
    chosen byte order (the `xfs_getu16/24/32/64` readers), C strings copied
    with `strncpy`, and the `%08X-%04X-%04X-%02X%02X-%02X...` rendering of
    a UUID. */
module Bytes {
  import opened XfsCommon
  import opened Bits

  /** The byte order every decoder is handed. As in the readers the decoders
      call, `Little` reads little-endian and any other value big-endian;
      the decoders themselves refuse `Unknown`. */
  datatype Endian = Unknown | Little | Big

  // ---------------------------------------------------------------------
  // Unsigned fields

  /** The number a byte string denotes with its first byte most significant. */
  function BeValue(s: seq<byte>): nat
  {
    if |s| == 0 then 0 else 256 * BeValue(s[..|s| - 1]) + s[|s| - 1]
  }

  function Reverse(s: seq<byte>): (r: seq<byte>)
    ensures |r| == |s|
    ensures forall i :: 0 <= i < |s| ==> r[i] == s[|s| - 1 - i]
  {
    if |s| == 0 then [] else Reverse(s[1..]) + [s[0]]
  }

  /** The number a byte string denotes with its first byte least significant. */
  function LeValue(s: seq<byte>): nat
  {
    BeValue(Reverse(s))
  }

  lemma {:induction false} BeValueBound(s: seq<byte>)
    ensures BeValue(s) < Pow2(8 * |s|)
  {
    if |s| > 0 {
      BeValueBound(s[..|s| - 1]);
      Pow2Plus8(8 * (|s| - 1));
    }
  }

  lemma Pow2Plus8(k: nat)
    ensures Pow2(k + 8) == 256 * Pow2(k)
  {
    Pow2Add(k, 8);
    assert Pow2(8) == 256;
  }

  /** Splitting a byte string splits its big-endian value at a byte
      boundary: the head is shifted past the tail. */
  lemma {:induction false} BeValueAppend(s: seq<byte>, t: seq<byte>)
    ensures BeValue(s + t) == Shl(BeValue(s), 8 * |t|) + BeValue(t)
  {
    if |t| == 0 {
      assert s + t == s;
    } else {
      var t' := t[..|t| - 1];
      assert (s + t)[..|s + t| - 1] == s + t';
      BeValueAppend(s, t');
      ShlAdd8(BeValue(s), 8 * |t'|);
    }
  }

  lemma ShlAdd8(x: nat, k: nat)
    ensures Shl(x, k + 8) == 256 * Shl(x, k)
  {
    ShlShl(x, k, 8);
    ShlIsMul(Shl(x, k), 8);
    assert Pow2(8) == 256;
  }

  /** The n bytes, most significant first, that a number is written as
      when stored in an n-byte big-endian field. */
  function BeBytes(v: nat, n: nat): (r: seq<byte>)
    ensures |r| == n
  {
    if n == 0 then [] else BeBytes(v / 256, n - 1) + [v % 256]
  }

  /** Writing keeps the low 8n bits: a value that fits reads back as itself. */
  lemma {:induction false} BeBytesValue(v: nat, n: nat)
    ensures BeValue(BeBytes(v, n)) == LowBits(v, 8 * n)
  {
    if n > 0 {
      var s := BeBytes(v, n);
      assert s[..n - 1] == BeBytes(v / 256, n - 1);
      BeBytesValue(v / 256, n - 1);
      LowBitsSplit(v, 8, 8 * (n - 1));
      ShrLowBitsDivMod(v, 8);
      Pow2Values();
      ShlIsMul(LowBits(v / 256, 8 * (n - 1)), 8);
    }
  }

  /** The n bytes a number is stored as in an n-byte field under byte
      order `e`: least significant first for `Little`, most significant
      first otherwise. */
  function PutUN(e: Endian, v: nat, n: nat): (r: seq<byte>)
    ensures |r| == n
  {
    if e == Little then Reverse(BeBytes(v, n)) else BeBytes(v, n)
  }

  /** A field read back from where it was stored under the same byte
      order gives the stored number's low 8n bits. */
  lemma GetPutUN(e: Endian, buf: seq<byte>, off: nat, v: nat, n: nat)
    requires off + n <= |buf| && buf[off..off + n] == PutUN(e, v, n)
    ensures GetUN(e, buf, off, n) == LowBits(v, 8 * n)
  {
    BeBytesValue(v, n);
    var s := BeBytes(v, n);
    assert Reverse(Reverse(s)) == s;
  }

  /** Every byte is zero exactly when the value is zero, whichever the
      byte order. */
  predicate AllZero(s: seq<byte>)
  {
    forall i :: 0 <= i < |s| ==> s[i] == 0
  }

  lemma {:induction false} BeValueZero(s: seq<byte>)
    ensures BeValue(s) == 0 <==> AllZero(s)
  {
    if |s| > 0 {
      BeValueZero(s[..|s| - 1]);
      if AllZero(s) {
        assert AllZero(s[..|s| - 1]);
      } else if AllZero(s[..|s| - 1]) {
        assert s[|s| - 1] != 0;
      }
    }
  }

  lemma LeValueZero(s: seq<byte>)
    ensures LeValue(s) == 0 <==> AllZero(s)
  {
    BeValueZero(Reverse(s));
    if AllZero(Reverse(s)) {
      forall i | 0 <= i < |s| ensures s[i] == 0 {
        assert Reverse(s)[|s| - 1 - i] == s[i];
      }
    }
  }

  /** A 16-bit field of all ones has both its bytes 0xFF, in either
      byte order. */
  lemma GetU16AllOnes(e: Endian, buf: seq<byte>, off: nat)
    requires off + 2 <= |buf| && GetU16(e, buf, off) == 0xFFFF
    ensures buf[off] == 0xFF && buf[off + 1] == 0xFF
  {
    var s := buf[off..off + 2];
    assert s[..1][..0] == [] && s[..1] == [s[0]] && s[..|s| - 1] == s[..1];
    assert BeValue(s[..1]) == s[0];
    assert BeValue(s) == 256 * (s[0] as int) + s[1] as int;
    var t := Reverse(s);
    assert t[..1][..0] == [] && t[..1] == [t[0]] && t[..|t| - 1] == t[..1];
    assert BeValue(t[..1]) == t[0];
    assert BeValue(t) == 256 * (s[1] as int) + s[0] as int;
  }

  /** The `n` bytes at `off` as an unsigned number under byte order `e`. */
  function GetUN(e: Endian, buf: seq<byte>, off: nat, n: nat): nat
    requires off + n <= |buf|
  {
    var s := buf[off..off + n];
    if e == Little then LeValue(s) else BeValue(s)
  }

  lemma GetUNBound(e: Endian, buf: seq<byte>, off: nat, n: nat)
    requires off + n <= |buf|
    ensures GetUN(e, buf, off, n) < Pow2(8 * n)
  {
    BeValueBound(buf[off..off + n]);
    BeValueBound(Reverse(buf[off..off + n]));
  }

  /** A field reads as zero exactly when all its bytes are zero, in
      either byte order. */
  lemma GetUNZero(e: Endian, buf: seq<byte>, off: nat, n: nat)
    requires off + n <= |buf|
    ensures GetUN(e, buf, off, n) == 0 <==> AllZero(buf[off..off + n])
  {
    BeValueZero(buf[off..off + n]);
    LeValueZero(buf[off..off + n]);
  }

  /** The bounds the fixed-width readers need, stated without powers of
      two so that a reader's definition does not carry them. */
  lemma FieldBound(e: Endian, buf: seq<byte>, off: nat, n: nat)
    requires off + n <= |buf|
    ensures n == 2 ==> GetUN(e, buf, off, n) < 0x1_0000
    ensures n == 3 ==> GetUN(e, buf, off, n) < 0x100_0000
    ensures n == 4 ==> GetUN(e, buf, off, n) < 0x1_0000_0000
    ensures n == 8 ==> GetUN(e, buf, off, n) < 0x1_0000_0000_0000_0000
  {
    GetUNBound(e, buf, off, n);
    Pow2Values();
  }

  function GetU16(e: Endian, buf: seq<byte>, off: nat): u16
    requires off + 2 <= |buf|
  {
    FieldBound(e, buf, off, 2);
    GetUN(e, buf, off, 2)
  }

  function GetU24(e: Endian, buf: seq<byte>, off: nat): u32
    requires off + 3 <= |buf|
  {
    FieldBound(e, buf, off, 3);
    GetUN(e, buf, off, 3)
  }

  function GetU32(e: Endian, buf: seq<byte>, off: nat): u32
    requires off + 4 <= |buf|
  {
    FieldBound(e, buf, off, 4);
    GetUN(e, buf, off, 4)
  }

  function GetU64(e: Endian, buf: seq<byte>, off: nat): u64
    requires off + 8 <= |buf|
  {
    FieldBound(e, buf, off, 8);
    GetUN(e, buf, off, 8)
  }

  /** A field read from a window of the buffer is the field read from the
      buffer at the window's base plus the offset. */
  lemma GetUNWindow(e: Endian, buf: seq<byte>, base: nat, end: nat, off: nat, n: nat)
    requires base <= end <= |buf| && off + n <= end - base
    ensures GetUN(e, buf[base..end], off, n) == GetUN(e, buf, base + off, n)
  {
    var x, y := buf[base..end][off..off + n], buf[base + off..base + off + n];
    assert forall j | 0 <= j < n :: x[j] == y[j];
    assert x == y;
  }

  /** A part of a window the buffer is known to hold. */
  lemma SliceOfWindow(buf: seq<byte>, off: nat, w: seq<byte>, a: nat, b: nat)
    requires off + |w| <= |buf| && buf[off..off + |w|] == w && a <= b <= |w|
    ensures buf[off + a..off + b] == w[a..b]
  {
    var x := buf[off + a..off + b];
    forall j | 0 <= j < b - a
      ensures x[j] == w[a..b][j]
    {
      assert x[j] == buf[off + a + j] == w[a + j];
    }
  }

  /** A window holding two parts one after the other holds each part. */
  lemma SplitWindow(buf: seq<byte>, off: nat, s: seq<byte>, w: seq<byte>, ws: seq<byte>, mid: nat, end: nat)
    requires s == w + ws && mid == off + |w| && end == mid + |ws|
    requires off + |s| <= |buf| && buf[off..off + |s|] == s
    ensures end <= |buf|
    ensures buf[off..mid] == w
    ensures buf[mid..end] == ws
  {
    SliceOfWindow(buf, off, s, 0, |w|);
    SliceOfWindow(buf, off, s, |w|, |w| + |ws|);
    assert s[..|w|] == w;
    assert s[|w|..] == ws;
  }

  /** A field that fits, stored and read back under the same byte order. */
  lemma FieldRoundTrip(e: Endian, buf: seq<byte>, off: nat, v: nat, n: nat)
    requires off + n <= |buf| && buf[off..off + n] == PutUN(e, v, n) && v < Pow2(8 * n)
    ensures GetUN(e, buf, off, n) == v
  {
    GetPutUN(e, buf, off, v, n);
    LowBitsOfSmall(v, 8 * n);
  }

  lemma U16RoundTrip(e: Endian, buf: seq<byte>, off: nat, v: u16)
    requires off + 2 <= |buf| && buf[off..off + 2] == PutUN(e, v, 2)
    ensures GetU16(e, buf, off) == v
  {
    Pow2Values();
    FieldRoundTrip(e, buf, off, v, 2);
  }

  lemma U32RoundTrip(e: Endian, buf: seq<byte>, off: nat, v: u32)
    requires off + 4 <= |buf| && buf[off..off + 4] == PutUN(e, v, 4)
    ensures GetU32(e, buf, off) == v
  {
    Pow2Values();
    FieldRoundTrip(e, buf, off, v, 4);
  }

  lemma SliceOfPrefix(buf: seq<byte>, end: nat, a: nat, b: nat)
    requires a <= b <= end <= |buf|
    ensures buf[..end][a..b] == buf[a..b]
  {
    var x, y := buf[..end][a..b], buf[a..b];
    assert forall j | 0 <= j < b - a :: x[j] == y[j];
  }

  lemma SliceOfSlice(buf: seq<byte>, base: nat, end: nat, a: nat, b: nat)
    requires base <= end <= |buf| && a <= b <= end - base
    ensures buf[base..end][a..b] == buf[base + a..base + b]
  {
    var x, y := buf[base..end][a..b], buf[base + a..base + b];
    assert forall j | 0 <= j < b - a :: x[j] == y[j];
  }

  lemma GetUNPrefix(e: Endian, buf: seq<byte>, end: nat, off: nat, n: nat)
    requires end <= |buf| && off + n <= end
    ensures GetUN(e, buf[..end], off, n) == GetUN(e, buf, off, n)
  {
    var x, y := buf[..end][off..off + n], buf[off..off + n];
    assert forall j | 0 <= j < n :: x[j] == y[j];
    assert x == y;
  }

  // ---------------------------------------------------------------------
  // C strings

  /** The bytes before the first NUL: what a C string reader sees. */
  function CStr(s: seq<byte>): (r: seq<byte>)
    ensures |r| <= |s| && r == s[..|r|]
    ensures forall i :: 0 <= i < |r| ==> r[i] != 0
    ensures |r| < |s| ==> s[|r|] == 0
  {
    if |s| == 0 || s[0] == 0 then [] else [s[0]] + CStr(s[1..])
  }

  /** The contents of an n-byte array after `strncpy(dst, src, n)`: the
      source up to its first NUL, then NUL padding. */
  function Strncpy(src: seq<byte>): (r: seq<byte>)
    ensures |r| == |src|
  {
    var c := CStr(src);
    c + seq(|src| - |c|, _ => 0)
  }

  /** The copy holds the same C string as the source, and NUL after it. */
  lemma StrncpyCopiesCStr(src: seq<byte>)
    ensures CStr(Strncpy(src)) == CStr(src)
    ensures forall i :: |CStr(src)| <= i < |src| ==> Strncpy(src)[i] == 0
    ensures Strncpy(src)[..|CStr(src)|] == src[..|CStr(src)|]
  {
    var c := CStr(src);
    CStrOfPrefix(c, seq(|src| - |c|, _ => 0));
    assert Strncpy(src)[..|c|] == c;
  }

  lemma {:induction false} CStrOfPrefix(c: seq<byte>, pad: seq<byte>)
    requires forall i :: 0 <= i < |c| ==> c[i] != 0
    requires |pad| == 0 || pad[0] == 0
    ensures CStr(c + pad) == c
  {
    if |c| > 0 {
      assert (c + pad)[1..] == c[1..] + pad;
      CStrOfPrefix(c[1..], pad);
    } else {
      assert c + pad == pad;
    }
  }

  /** A C string of at most `n` bytes at `off`, as `strncpy(dst, buf + off, n)`
      copies it into a zeroed buffer of `n + 1` bytes. The copy stops at the
      first NUL or after `n` bytes; if neither happens inside the buffer the
      read would run off its end, and the result is `Truncated`. */
  function ReadCStr(buf: seq<byte>, off: nat, n: nat): (r: Result<seq<byte>>)
    requires off <= |buf|
    ensures r.Ok? ==> |r.value| <= n && forall i :: 0 <= i < |r.value| ==> r.value[i] != 0
    ensures r.Ok? ==> off + |r.value| <= |buf| && r.value == buf[off..off + |r.value|]
    ensures r.Ok? && |r.value| < n ==> off + |r.value| < |buf| && buf[off + |r.value|] == 0
    ensures r.Err? <==> off + n > |buf| && AllNonZero(buf[off..])
    ensures r.Err? ==> r.error == Truncated
  {
    if off + n <= |buf| then Ok(CStr(buf[off..off + n]))
    else
      var c := CStr(buf[off..]);
      if |c| < |buf| - off then Ok(c)
      else
        assert c == buf[off..];
        Err(Truncated)
  }

  predicate AllNonZero(s: seq<byte>)
  {
    forall i :: 0 <= i < |s| ==> s[i] != 0
  }

  // ---------------------------------------------------------------------
  // Hexadecimal and UUIDs

  /** One uppercase hexadecimal digit, as `%X` prints it. */
  function HexDigit(d: nat): (c: char)
    requires d < 16
  {
    if d < 10 then (48 + d) as char else (55 + d) as char
  }

  predicate IsHexDigit(c: char)
  {
    '0' <= c <= '9' || 'A' <= c <= 'F'
  }

  function DigitValue(c: char): (d: nat)
    requires IsHexDigit(c)
    ensures d < 16
  {
    if c <= '9' then c as int - 48 else c as int - 55
  }

  /** `%0wX`: the low 4*w bits of v as w uppercase hex digits. */
  function Hex(v: nat, w: nat): (r: string)
    ensures |r| == w
    ensures forall i :: 0 <= i < w ==> IsHexDigit(r[i])
  {
    if w == 0 then "" else Hex(v / 16, w - 1) + [HexDigit(v % 16)]
  }

  /** The number a string of hex digits denotes. */
  function HexValue(s: string): nat
    requires forall i :: 0 <= i < |s| ==> IsHexDigit(s[i])
  {
    if |s| == 0 then 0 else 16 * HexValue(s[..|s| - 1]) + DigitValue(s[|s| - 1])
  }

  /** Reading back what `%0wX` printed gives the number, when it fits. */
  lemma {:induction false} HexRoundTrip(v: nat, w: nat)
    requires v < Pow2(4 * w)
    ensures HexValue(Hex(v, w)) == v
  {
    if w > 0 {
      Pow2Add(4 * (w - 1), 4);
      assert Pow2(4) == 16;
      HexRoundTrip(v / 16, w - 1);
      assert Hex(v, w)[..w - 1] == Hex(v / 16, w - 1);
    }
  }

  /** The 36-character string `%08X-%04X-%04X-%02X%02X-%02X%02X%02X%02X%02X%02X`
      makes of the 16 UUID bytes at `off`: a 32-bit and two 16-bit numbers
      read under byte order `e`, then eight single bytes in order. */
  function FormatUuid(e: Endian, buf: seq<byte>, off: nat): (r: string)
    requires off + 16 <= |buf|
    ensures |r| == 36
    ensures r[8] == '-' && r[13] == '-' && r[18] == '-' && r[23] == '-'
    ensures forall i :: 0 <= i < 36 && i != 8 && i != 13 && i != 18 && i != 23 ==> IsHexDigit(r[i])
  {
    Hex(GetU32(e, buf, off), 8) + "-" + Hex(GetU16(e, buf, off + 4), 4) + "-"
    + Hex(GetU16(e, buf, off + 6), 4) + "-" + HexBytes(buf[off + 8..off + 10]) + "-"
    + HexBytes(buf[off + 10..off + 16])
  }

  /** `%02X` applied to each byte in turn. */
  function HexBytes(s: seq<byte>): (r: string)
    ensures |r| == 2 * |s|
    ensures forall i :: 0 <= i < |r| ==> IsHexDigit(r[i])
  {
    if |s| == 0 then "" else Hex(s[0], 2) + HexBytes(s[1..])
  }

  lemma {:induction false} HexValueBound(s: string)
    requires forall i :: 0 <= i < |s| ==> IsHexDigit(s[i])
    ensures HexValue(s) < Pow2(4 * |s|)
  {
    if |s| > 0 {
      HexValueBound(s[..|s| - 1]);
      Pow2Add(4 * (|s| - 1), 4);
      assert Pow2(4) == 16;
    }
  }

  /** Reads `%02X` pairs back into bytes. */
  function UnhexBytes(h: string): seq<byte>
    requires |h| % 2 == 0
    requires forall i :: 0 <= i < |h| ==> IsHexDigit(h[i])
  {
    if |h| == 0 then [] else
      var v := HexValue(h[..2]);
      HexValueBound(h[..2]);
      assert Pow2(8) == 256;
      [v] + UnhexBytes(h[2..])
  }

  lemma {:induction false} HexBytesRoundTrip(s: seq<byte>)
    ensures UnhexBytes(HexBytes(s)) == s
  {
    if |s| > 0 {
      var h := HexBytes(s);
      assert h[..2] == Hex(s[0], 2) && h[2..] == HexBytes(s[1..]);
      Pow2Values();
      Pow2Add(4, 4);
      HexRoundTrip(s[0], 2);
      HexBytesRoundTrip(s[1..]);
    }
  }

  /** The four groups of a printed UUID read back as numbers and bytes. */
  datatype UuidFields = UuidFields(data1: nat, data2: nat, data3: nat, data4: seq<byte>)

  predicate IsUuidString(s: string)
  {
    |s| == 36 && s[8] == '-' && s[13] == '-' && s[18] == '-' && s[23] == '-'
    && forall i :: 0 <= i < 36 && i != 8 && i != 13 && i != 18 && i != 23 ==> IsHexDigit(s[i])
  }

  function ParseUuid(s: string): UuidFields
    requires IsUuidString(s)
  {
    UuidFields(HexValue(s[0..8]), HexValue(s[9..13]), HexValue(s[14..18]),
               UnhexBytes(s[19..23]) + UnhexBytes(s[24..36]))
  }

  /** Parsing the printed string gives back exactly the numbers and bytes
      that were printed: nothing is lost in the rendering. */
  lemma UuidRoundTrip(e: Endian, buf: seq<byte>, off: nat)
    requires off + 16 <= |buf|
    ensures IsUuidString(FormatUuid(e, buf, off))
    ensures ParseUuid(FormatUuid(e, buf, off))
         == UuidFields(GetU32(e, buf, off), GetU16(e, buf, off + 4), GetU16(e, buf, off + 6), buf[off + 8..off + 16])
  {
    var s := FormatUuid(e, buf, off);
    var a, b, c := GetU32(e, buf, off), GetU16(e, buf, off + 4), GetU16(e, buf, off + 6);
    assert s[0..8] == Hex(a, 8);
    assert s[9..13] == Hex(b, 4);
    assert s[14..18] == Hex(c, 4);
    assert s[19..23] == HexBytes(buf[off + 8..off + 10]);
    assert s[24..36] == HexBytes(buf[off + 10..off + 16]);
    Pow2Values();
    Pow2Add(16, 16);
    HexRoundTrip(a, 8);
    HexRoundTrip(b, 4);
    HexRoundTrip(c, 4);
    HexBytesRoundTrip(buf[off + 8..off + 10]);
    HexBytesRoundTrip(buf[off + 10..off + 16]);
    assert buf[off + 8..off + 10] + buf[off + 10..off + 16] == buf[off + 8..off + 16];
  }
}
