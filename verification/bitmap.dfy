/** The byte-level helpers of the spectrogram bitmaps: the 138-byte BMP header, 32-bit little
    endian fields (`Int.toLittleEndianBytes`), and the "#RRGGBB" / "#AARRGGBB" colour parser
    (`parseColor`) with the colour ramp built from it. */
module Bitmaps {
  import opened Wrappers
  import opened Numerics
  import opened Radix2

  /** A byte, by its unsigned bit pattern (Kotlin's `Byte` is signed; only the bits matter here). */
  type Byte = b: int | 0 <= b < 256

  const TWO_32: int := 0x1_0000_0000

  /** The bit pattern of an `Int` read as an unsigned number. */
  function Unsigned(x: Int32): (u: nat)
    ensures u < TWO_32
    ensures x >= 0 ==> u == x
    ensures x < 0 ==> u == x + TWO_32
  {
    if x < 0 then x + TWO_32 else x
  }

  /** Truncating a number below 2^32 to an `Int` keeps its bit pattern. */
  lemma UnsignedWrap(x: int)
    requires 0 <= x < TWO_32
    ensures Unsigned(Wrap32(x)) == x
  {
    if x > INT_MAX {
      DivModUnique(x - INT_MIN, TWO_32, 1, x - INT_MIN - TWO_32);
    }
  }

  /** `Int.toLittleEndianBytes`: the low byte of the value and of its logical shifts by 8, 16
      and 24 bits. */
  function LittleEndianBytes(x: Int32): (b: seq<Byte>)
    ensures |b| == 4
  {
    var u := Unsigned(x);
    [u % 256, (u / 0x100) % 256, (u / 0x1_0000) % 256, (u / 0x100_0000) % 256]
  }

  /** The `Int` whose little-endian bytes are b[at .. at + 4]. */
  function ReadLittleEndian(b: seq<Byte>, at: nat): (x: Int32)
    requires at + 4 <= |b|
  {
    var u := b[at] as int + 0x100 * (b[at + 1] as int) + 0x1_0000 * (b[at + 2] as int) + 0x100_0000 * (b[at + 3] as int);
    if u > INT_MAX then u - TWO_32 else u
  }

  /** Encoding then decoding gives the value back. */
  lemma ReadWritten(x: Int32)
    ensures ReadLittleEndian(LittleEndianBytes(x), 0) == x
  {
    var u := Unsigned(x);
    var q1, r0 := u / 256, u % 256;
    var q2, r1 := q1 / 256, q1 % 256;
    var q3, r2 := q2 / 256, q2 % 256;
    assert u == 256 * q1 + r0 && q1 == 256 * q2 + r1 && q2 == 256 * q3 + r2;
    DivModUnique(u, 0x1_0000, q2, 256 * r1 + r0);
    DivModUnique(u, 0x100_0000, q3, 0x1_0000 * r2 + 256 * r1 + r0);
    assert LittleEndianBytes(x) == [r0, r1, r2, q3];
  }

  /** Decoding then encoding gives the bytes back: the encoding is a bijection. */
  lemma WriteRead(b: seq<Byte>)
    requires |b| == 4
    ensures LittleEndianBytes(ReadLittleEndian(b, 0)) == b
  {
    var b0: int, b1: int, b2: int, b3: int := b[0], b[1], b[2], b[3];
    var v := b0 + 0x100 * b1 + 0x1_0000 * b2 + 0x100_0000 * b3;
    assert Unsigned(ReadLittleEndian(b, 0)) == v;
    DivModUnique(v, 256, b1 + 256 * b2 + 0x1_0000 * b3, b0);
    DivModUnique(v / 256, 256, b2 + 256 * b3, b1);
    DivModUnique(v, 0x1_0000, b2 + 256 * b3, b0 + 256 * b1);
    DivModUnique(v / 0x1_0000, 256, b3, b2);
    DivModUnique(v, 0x100_0000, b3, b0 + 256 * b1 + 0x1_0000 * b2);
  }

  /** b with the four bytes at `at` replaced by c, as `copyInto` does. */
  function Put(b: seq<Byte>, at: nat, c: seq<Byte>): (r: seq<Byte>)
    requires |c| == 4 && at + 4 <= |b|
    ensures |r| == |b| && r[at..at + 4] == c
    ensures forall i :: 0 <= i < |b| && !(at <= i < at + 4) ==> r[i] == b[i]
  {
    b[..at] + c + b[at + 4..]
  }

  /** Reading back the field just put gives the value put. */
  lemma ReadPut(b: seq<Byte>, at: nat, x: Int32)
    requires at + 4 <= |b|
    ensures ReadLittleEndian(Put(b, at, LittleEndianBytes(x)), at) == x
  {
    var r := Put(b, at, LittleEndianBytes(x));
    assert r[at..at + 4] == LittleEndianBytes(x);
    assert r[at] == LittleEndianBytes(x)[0] && r[at + 1] == LittleEndianBytes(x)[1];
    assert r[at + 2] == LittleEndianBytes(x)[2] && r[at + 3] == LittleEndianBytes(x)[3];
    ReadWritten(x);
  }

  /** Putting four bytes elsewhere leaves a field as it was. */
  lemma ReadOther(b: seq<Byte>, at: nat, c: seq<Byte>, field: nat)
    requires |c| == 4 && at + 4 <= |b| && field + 4 <= |b|
    requires field + 4 <= at || at + 4 <= field
    ensures ReadLittleEndian(Put(b, at, c), field) == ReadLittleEndian(b, field)
  {
    var r := Put(b, at, c);
    assert r[field] == b[field] && r[field + 1] == b[field + 1];
    assert r[field + 2] == b[field + 2] && r[field + 3] == b[field + 3];
  }

  /** The header both spectrogram bitmaps start from: a BITMAPV4 header for a 4 × 2 image of
      32-bit pixels with bit-field masks and the sRGB colour space. */
  const BmpHeader: seq<Byte> := FileHeader + InfoHeader + ZeroBytes(64)

  /** Signature "BM", file size, two unused words, offset of the pixel data. */
  const FileHeader: seq<Byte> :=
    [0x42, 0x4D, 0xaa, 0x00, 0x00, 0x00, 0x00, 0x00, 0x00, 0x00, 0x8a, 0x00, 0x00, 0x00]

  /** The first 60 bytes of the 124-byte DIB header: its size, the image geometry, the pixel
      format, an empty palette, the colour masks and the colour space tag. The other 64 bytes
      (colour space end points and gamma) are zero. */
  const InfoHeader: seq<Byte> := [0x7c, 0x00, 0x00, 0x00] + Geometry + Format + ZeroBytes(8) + Masks + [0x42, 0x47, 0x52, 0x73]

  /** Width 4, height 2, one plane, 32 bits per pixel. */
  const Geometry: seq<Byte> := [0x04, 0x00, 0x00, 0x00, 0x02, 0x00, 0x00, 0x00, 0x01, 0x00, 0x20, 0x00]

  /** Bit-field format, raw size 32 bytes, 2835 pixels per metre both ways. */
  const Format: seq<Byte> :=
    [0x03, 0x00, 0x00, 0x00, 0x20, 0x00, 0x00, 0x00, 0x13, 0x0B, 0x00, 0x00, 0x13, 0x0B, 0x00, 0x00]

  /** The R, G, B and A masks 00FF0000, 0000FF00, 000000FF, FF000000. */
  const Masks: seq<Byte> :=
    [0x00, 0x00, 0xFF, 0x00, 0x00, 0xFF, 0x00, 0x00, 0xFF, 0x00, 0x00, 0x00, 0x00, 0x00, 0x00, 0xFF]

  /** The header is 138 bytes, and its own fields say so: the pixel data starts at byte 138
      (field at 10), after a 124-byte DIB header (field at 14). */
  lemma HeaderLayout()
    ensures |BmpHeader| == 138
    ensures ReadLittleEndian(BmpHeader, 10) == |BmpHeader|
    ensures ReadLittleEndian(BmpHeader, 14) == |BmpHeader| - 14
  {
    assert BmpHeader[10..14] == FileHeader[10..14];
    assert BmpHeader[14..18] == InfoHeader[..4];
  }

  function ZeroBytes(n: nat): (z: seq<Byte>)
    ensures |z| == n && forall i :: 0 <= i < n ==> z[i] == 0
  {
    seq(n, _ => 0)
  }

  // ---------------------------------------------------------------------------------------
  // Colours

  /** The value of a hexadecimal digit, either case. */
  function HexDigit(c: char): Option<nat> {
    if '0' <= c <= '9' then Some(c as int - '0' as int)
    else if 'a' <= c <= 'f' then Some(c as int - 'a' as int + 10)
    else if 'A' <= c <= 'F' then Some(c as int - 'A' as int + 10)
    else None
  }

  /** The value of a string of hexadecimal digits, most significant first; `None` if a character
      is not a digit. */
  function HexValue(ds: string): Option<nat> {
    if |ds| == 0 then Some(0)
    else
      match (HexValue(ds[..|ds| - 1]), HexDigit(ds[|ds| - 1]))
      case (Some(high), Some(low)) => Some(16 * high + low)
      case _ => None
  }

  /** `String.toLong(16)`: an optional sign, then at least one hexadecimal digit, and a value
      that fits in a `Long`; anything else is a NumberFormatException. */
  function ToLong16(s: string): (r: Result<Int64>)
    ensures r.Failure? ==> r.error == NumberFormat
  {
    var negative := |s| > 0 && s[0] == '-';
    var digits := if |s| > 0 && (s[0] == '-' || s[0] == '+') then s[1..] else s;
    if |digits| == 0 then Failure(NumberFormat)
    else
      match HexValue(digits)
      case None => Failure(NumberFormat)
      case Some(v) =>
        var value := if negative then -(v as int) else v as int;
        if LONG_MIN <= value <= LONG_MAX then Success(value) else Failure(NumberFormat)
  }

  /** `parseColor`: the text after the first character read as a hexadecimal `Long`; for a
      7-character "#RRGGBB" the alpha byte 0xFF is ORed in; a 9-character "#AARRGGBB" keeps the
      parsed value; any other length is rejected, after the parse. The result is the low 32 bits.
      ORing 0xFF000000 keeps the low 24 bits of the two's complement pattern and sets the next 8,
      which the low 32 bits of (v mod 2^24) + 0xFF000000 state without bit operations. */
  function ParseColor(s: string): (r: Result<Int32>)
  {
    if |s| == 0 then Failure(IndexOutOfBounds)
    else
      match ToLong16(s[1..])
      case Failure(e) => Failure(e)
      case Success(color) =>
        if |s| == 7 then Success(Wrap32(color % 0x100_0000 + 0xFF00_0000))
        else if |s| != 9 then Failure(IllegalArgument)
        else Success(Wrap32(color))
  }

  /** What `parseColor` promises for well-formed input: "#RRGGBB" is the opaque colour whose
      low three bytes are RR, GG, BB and whose alpha byte is 0xFF; "#AARRGGBB" is the colour
      with those four bytes. */
  lemma ParseColorSpec(s: string)
    requires |s| == 7 || |s| == 9
    requires forall i :: 1 <= i < |s| ==> HexDigit(s[i]).Some?
    ensures HexValue(s[1..]).Some? && ParseColor(s).Success?
    ensures |s| == 7 ==> Unsigned(ParseColor(s).value) == 0xFF00_0000 + HexValue(s[1..]).value
    ensures |s| == 9 ==> Unsigned(ParseColor(s).value) == HexValue(s[1..]).value
  {
    var digits := s[1..];
    forall i | 0 <= i < |digits| ensures HexDigit(digits[i]).Some? {
      assert digits[i] == s[i + 1];
    }
    UnsignedDigits(digits);
    var v := HexValue(digits).value;
    if |s| == 7 {
      assert Power16(6) == 0x100_0000;
      DivModUnique(v, 0x100_0000, 0, v);
      UnsignedWrap(v + 0xFF00_0000);
    } else {
      UnsignedWrap(v);
    }
  }

  /** Unsigned digits, at most 8 of them, read as their value by `toLong(16)`. */
  lemma UnsignedDigits(digits: string)
    requires 0 < |digits| <= 8
    requires forall i :: 0 <= i < |digits| ==> HexDigit(digits[i]).Some?
    ensures HexValue(digits).Some? && HexValue(digits).value < Power16(|digits|) <= TWO_32
    ensures ToLong16(digits) == Success(HexValue(digits).value)
  {
    HexValueBound(digits);
    Power16Grows(|digits|, 8);
    assert Power16(8) == TWO_32;
    assert digits[0] != '-' && digits[0] != '+' by {
      assert HexDigit(digits[0]).Some?;
    }
  }

  lemma {:induction false} Power16Grows(m: nat, n: nat)
    requires m <= n
    ensures Power16(m) <= Power16(n)
  {
    if m < n {
      Power16Grows(m, n - 1);
    }
  }

  /** A string of n digits is below 16^n and has a value. */
  lemma {:induction false} HexValueBound(ds: string)
    requires forall i :: 0 <= i < |ds| ==> HexDigit(ds[i]).Some?
    ensures HexValue(ds).Some? && HexValue(ds).value < Power16(|ds|)
  {
    if |ds| > 0 {
      HexValueBound(ds[..|ds| - 1]);
    }
  }

  function Power16(n: nat): (p: nat)
    ensures p >= 1
  {
    if n == 0 then 1 else 16 * Power16(n - 1)
  }

  /** Lengths other than 7 and 9 are rejected once the digits parse. */
  lemma ParseColorLength(s: string)
    requires |s| > 0 && |s| != 7 && |s| != 9 && ToLong16(s[1..]).Success?
    ensures ParseColor(s) == Failure(IllegalArgument)
  {
  }

  /** The digit for a value below 16, upper case. */
  function HexDigitChar(d: nat): (c: char)
    requires d < 16
    ensures HexDigit(c) == Some(d)
  {
    if d < 10 then ('0' as int + d) as char else ('A' as int + d - 10) as char
  }

  /** u written with n hexadecimal digits, most significant first. */
  function HexString(u: nat, n: nat): (s: string)
    requires u < Power16(n)
    ensures |s| == n
  {
    if n == 0 then "" else HexString(u / 16, n - 1) + [HexDigitChar(u % 16)]
  }

  /** Reading the digits back gives the number. */
  lemma {:induction false} HexRoundTrip(u: nat, n: nat)
    requires u < Power16(n)
    ensures HexValue(HexString(u, n)) == Some(u)
  {
    if n > 0 {
      HexRoundTrip(u / 16, n - 1);
      var s := HexString(u, n);
      assert s[..|s| - 1] == HexString(u / 16, n - 1);
    }
  }

  /** Every colour is parsed back from its "#AARRGGBB" form. */
  lemma ParseFormatted(c: Int32)
    ensures ParseColor("#" + HexString(Unsigned(c), 8)) == Success(c)
  {
    assert Power16(8) == TWO_32;
    var digits := HexString(Unsigned(c), 8);
    var s := "#" + digits;
    assert s[1..] == digits;
    HexStringDigits(Unsigned(c), 8);
    HexRoundTrip(Unsigned(c), 8);
    ParseColorSpec(s);
  }

  /** Every character written is a hexadecimal digit. */
  lemma {:induction false} HexStringDigits(u: nat, n: nat)
    requires u < Power16(n)
    ensures forall i :: 0 <= i < n ==> HexDigit(HexString(u, n)[i]).Some?
  {
    if n > 0 {
      HexStringDigits(u / 16, n - 1);
    }
  }

  /** The spectrogram colour ramp, from dark grey through green and yellow to red. */
  const RampText: seq<string> := [
    "#303030", "#2D3C2D", "#2A482A", "#275427", "#246024", "#216C21", "#3F8E19", "#61A514",
    "#82BB0F", "#A4D20A", "#C5E805", "#E7FF00", "#EBD400", "#EFAA00", "#F37F00", "#F75500",
    "#FB2A00"]

  /** The ramp entry i as the colour `parseColor` gives for it. */
  function RampColor(i: nat): (c: Int32)
    requires i < |RampText|
    ensures ParseColor(RampText[i]) == Success(c)
  {
    ParseColorSpec(RampText[i]);
    ParseColor(RampText[i]).value
  }

  /** `min(ramp.size − 1, max(0, i))`: any index into the ramp's bounds. */
  function ClampToRamp(i: int): (c: nat)
    ensures c < |RampText|
    ensures 0 <= i < |RampText| ==> c == i
    ensures i < 0 ==> c == 0
    ensures i >= |RampText| ==> c == |RampText| - 1
  {
    Min(|RampText| - 1, Max(0, i))
  }
}
