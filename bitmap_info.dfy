/**
 * The BITMAPINFO encoder of Cognitec87FaceDetector: FormatToBitCount, the
 * little-endian writers WriteInt32, WriteUInt16 and WriteBGR, and
 * GetBitmapInfo, which fills a BITMAPINFOHEADER (and, for some formats,
 * colour masks or room for a palette) in a fresh byte array.
 */
module BitmapInfo {
  /** A C# byte. */
  newtype Byte = x: int | 0 <= x < 0x100

  /** A C# int: 32-bit two's complement. */
  newtype Int32 = x: int | -0x8000_0000 <= x < 0x8000_0000

  datatype Option<T> = None | Some(value: T)

  /** The System.Drawing pixel formats FormatToBitCount names, and every other format. */
  datatype PixelFormat =
    | Format1bppIndexed | Format4bppIndexed | Format8bppIndexed
    | Format16bppRgb555 | Format16bppRgb565 | Format16bppArgb1555 | Format16bppGrayScale
    | Format24bppRgb
    | Format32bppRgb | Format32bppPArgb | Format32bppArgb
    | Format48bppRgb
    | Format64bppPArgb | Format64bppArgb
    | OtherFormat

  /** The biCompression codes BI_RGB and BI_BITFIELDS of the Win32 enum. */
  const BiRgb: Int32 := 0
  const BiBitFields: Int32 := 3

  /** The resolution written into biXPelsPerMeter and biYPelsPerMeter (96 dpi). */
  const PelsPerMeter: Int32 := 3780

  /** The bits per pixel of a format; formats the switch does not list count as 32. */
  function FormatToBitCount(format: PixelFormat): (bits: Int32)
    ensures bits in {1, 4, 8, 16, 24, 32, 48, 64}
    ensures format.OtherFormat? ==> bits == 32
  {
    match format
    case Format1bppIndexed => 1
    case Format4bppIndexed => 4
    case Format8bppIndexed => 8
    case Format16bppRgb555 | Format16bppRgb565 | Format16bppArgb1555 | Format16bppGrayScale => 16
    case Format24bppRgb => 24
    case Format32bppRgb | Format32bppPArgb | Format32bppArgb => 32
    case Format48bppRgb => 48
    case Format64bppPArgb | Format64bppArgb => 64
    case OtherFormat => 32
  }

  /** The size GetBitmapInfo allocates: the 40-byte header plus the format's masks or palette room. */
  function InfoSize(format: PixelFormat): (size: nat)
    ensures 40 <= size && (size - 40) % 4 == 0
  {
    if format == Format16bppRgb565 then 40 + 3 * 4
    else if format == Format8bppIndexed then 40 + 256 * 4
    else if format == Format4bppIndexed then 40 + 40 + 16 * 4
    else if format == Format1bppIndexed then 40 + 40 + 2 * 4
    else 40
  }

  /** The allocation sizes, format by format. */
  lemma InfoSizes()
    ensures InfoSize(Format16bppRgb565) == 52 && InfoSize(Format8bppIndexed) == 1064
    ensures InfoSize(Format4bppIndexed) == 144 && InfoSize(Format1bppIndexed) == 88
    ensures forall f: PixelFormat :: f !in {Format16bppRgb565, Format8bppIndexed, Format4bppIndexed, Format1bppIndexed} ==> InfoSize(f) == 40
  {
  }

  /** (byte)x: the low eight bits of x. */
  function LowByte(x: int): (b: Byte)
    ensures (x - b as int) % 0x100 == 0
  {
    (x % 0x100) as Byte
  }

  /** The four bytes WriteInt32 stores: (byte)(v >> 0), (byte)(v >> 8), (byte)(v >> 16), (byte)(v >> 24). */
  function Int32Bytes(v: Int32): (bs: seq<Byte>)
    ensures |bs| == 4
  {
    var x := v as int;
    [LowByte(x), LowByte(x / 0x100), LowByte(x / 0x1_0000), LowByte(x / 0x100_0000)]
  }

  /** The two bytes WriteUInt16 stores: (byte)v and (byte)(v >> 8). */
  function UInt16Bytes(v: Int32): (bs: seq<Byte>)
    ensures |bs| == 2
  {
    var x := v as int;
    [LowByte(x), LowByte(x / 0x100)]
  }

  /** The RGBQUAD WriteBGR stores: the three low bytes of v, then a zero byte. */
  function BgrBytes(v: Int32): (bs: seq<Byte>)
    ensures |bs| == 4
  {
    var x := v as int;
    [LowByte(x), LowByte(x / 0x100), LowByte(x / 0x1_0000), 0]
  }

  /** Four bytes read as an unsigned little-endian number. */
  function DecodeUInt32(bs: seq<Byte>): (u: nat)
    requires |bs| == 4
    ensures u < 0x1_0000_0000
  {
    bs[0] as int + 0x100 * bs[1] as int + 0x1_0000 * bs[2] as int + 0x100_0000 * bs[3] as int
  }

  /** Four bytes read as a signed little-endian 32-bit integer (a DWORD or LONG field). */
  function DecodeInt32(bs: seq<Byte>): (v: Int32)
    requires |bs| == 4
    ensures v as int == DecodeUInt32(bs) || v as int == DecodeUInt32(bs) - 0x1_0000_0000
  {
    var u := DecodeUInt32(bs);
    if u < 0x8000_0000 then u as Int32 else (u - 0x1_0000_0000) as Int32
  }

  /** Two bytes read as an unsigned little-endian 16-bit integer (a WORD field). */
  function DecodeUInt16(bs: seq<Byte>): (u: nat)
    requires |bs| == 2
    ensures u < 0x1_0000
  {
    bs[0] as int + 0x100 * bs[1] as int
  }

  /** Decoding what WriteInt32 stores gives the value back, negative values included. */
  lemma Int32RoundTrip(v: Int32)
    ensures DecodeInt32(Int32Bytes(v)) == v
  {
    var x := v as int;
    var q1, q2, q3 := x / 0x100, x / 0x1_0000, x / 0x100_0000;
    assert q1 / 0x100 == q2 && q2 / 0x100 == q3;
    assert x == 0x100 * q1 + x % 0x100;
    assert q1 == 0x100 * q2 + q1 % 0x100;
    assert q2 == 0x100 * q3 + q2 % 0x100;
    assert q3 % 0x100 == if q3 < 0 then q3 + 0x100 else q3;
  }

  /** Every four bytes are the encoding of exactly one 32-bit integer: the one they decode to. */
  lemma Int32BytesOfDecode(bs: seq<Byte>)
    requires |bs| == 4
    ensures Int32Bytes(DecodeInt32(bs)) == bs
  {
    var x := DecodeInt32(bs) as int;
    var b0, b1, b2, b3 := bs[0] as int, bs[1] as int, bs[2] as int, bs[3] as int;
    var top := if x < 0 then b3 - 0x100 else b3;
    var k2 := b2 + 0x100 * top;
    var k1 := b1 + 0x100 * k2;
    assert x == 0x100 * k1 + b0;
    assert x / 0x100 == k1 && x % 0x100 == b0;
    assert x == 0x1_0000 * k2 + (b0 + 0x100 * b1);
    assert x / 0x1_0000 == k2 && x % 0x1_0000 == b0 + 0x100 * b1;
    assert x == 0x100_0000 * top + (b0 + 0x100 * b1 + 0x1_0000 * b2);
    assert x / 0x100_0000 == top && x % 0x100_0000 == b0 + 0x100 * b1 + 0x1_0000 * b2;
    assert k1 / 0x100 == k2 && k1 % 0x100 == b1;
    assert k2 / 0x100 == top && k2 % 0x100 == b2;
    assert top % 0x100 == b3;
  }

  /** Decoding what WriteUInt16 stores gives the value back when it fits in 16 bits. */
  lemma UInt16RoundTrip(v: Int32)
    requires 0 <= v < 0x1_0000
    ensures DecodeUInt16(UInt16Bytes(v)) == v as int
  {
  }

  /** The bytes WriteUInt16 stores are the low half of what WriteInt32 stores for the same value. */
  lemma UInt16IsLowHalf(v: Int32)
    ensures UInt16Bytes(v) == Int32Bytes(v)[..2]
  {
  }

  /** The RGBQUAD of v holds v's low 24 bits (blue, green, red) and a zero reserved byte. */
  lemma BgrIsLow24Bits(v: Int32)
    ensures BgrBytes(v)[..3] == Int32Bytes(v)[..3] && BgrBytes(v)[3] == 0
    ensures DecodeInt32(BgrBytes(v)) as int == v as int % 0x100_0000
  {
    var x := v as int;
    var q1, q2 := x / 0x100, x / 0x1_0000;
    assert q1 / 0x100 == q2;
    assert x == 0x100 * q1 + x % 0x100;
    assert q1 == 0x100 * q2 + q1 % 0x100;
  }

  /** s with bs written over its bytes offset .. offset + |bs| - 1. */
  function Put(s: seq<Byte>, offset: nat, bs: seq<Byte>): (r: seq<Byte>)
    requires offset + |bs| <= |s|
    ensures |r| == |s| && r[offset..offset + |bs|] == bs
    ensures forall i :: 0 <= i < |s| && !(offset <= i < offset + |bs|) ==> r[i] == s[i]
  {
    s[..offset] + bs + s[offset + |bs|..]
  }

  /** n zero bytes: the contents of a new byte[n]. */
  function Zeros(n: nat): (z: seq<Byte>)
    ensures |z| == n && forall i :: 0 <= i < n ==> z[i] == 0
  {
    seq(n, _ => 0)
  }

  /** WriteInt32: store value little-endian at offset; nothing else changes. */
  method WriteInt32(buffer: array<Byte>, offset: nat, value: Int32)
    requires offset + 4 <= buffer.Length
    modifies buffer
    ensures buffer[..] == Put(old(buffer[..]), offset, Int32Bytes(value))
  {
    var x := value as int;
    buffer[offset] := LowByte(x);
    buffer[offset + 1] := LowByte(x / 0x100);
    buffer[offset + 2] := LowByte(x / 0x1_0000);
    buffer[offset + 3] := LowByte(x / 0x100_0000);
  }

  /** WriteUInt16: store the low 16 bits of value little-endian at offset; nothing else changes. */
  method WriteUInt16(buffer: array<Byte>, offset: nat, value: Int32)
    requires offset + 2 <= buffer.Length
    modifies buffer
    ensures buffer[..] == Put(old(buffer[..]), offset, UInt16Bytes(value))
  {
    var x := value as int;
    buffer[offset] := LowByte(x);
    buffer[offset + 1] := LowByte(x / 0x100);
  }

  /** WriteBGR: store value as an RGBQUAD at offset; nothing else changes. */
  method WriteBGR(buffer: array<Byte>, offset: nat, value: Int32)
    requires offset + 4 <= buffer.Length
    modifies buffer
    ensures buffer[..] == Put(old(buffer[..]), offset, BgrBytes(value))
  {
    var x := value as int;
    buffer[offset] := LowByte(x);
    buffer[offset + 1] := LowByte(x / 0x100);
    buffer[offset + 2] := LowByte(x / 0x1_0000);
    buffer[offset + 3] := 0;
  }

  /** -height in unchecked C# arithmetic: the negation wraps for the one value that has none. */
  function Negate(v: Int32): (n: Int32)
    ensures n as int == -(v as int) || (v as int == -0x8000_0000 && n == v)
  {
    if v == -0x8000_0000 then v else -v
  }

  /** biCompression: bit fields for 5-6-5 RGB, uncompressed otherwise. */
  function Compression(format: PixelFormat): (code: Int32)
    ensures code == BiBitFields <==> format == Format16bppRgb565
    ensures code == BiRgb <==> format != Format16bppRgb565
  {
    if format == Format16bppRgb565 then BiBitFields else BiRgb
  }

  /** The writes of biPlanes and biBitCount: 32-bit stores at 12 and 14, each running into the next field. */
  function PlanesAndBitCount(b: seq<Byte>, format: PixelFormat): (r: seq<Byte>)
    requires 18 <= |b|
    ensures |r| == |b|
  {
    Put(Put(b, 12, Int32Bytes(1)), 14, Int32Bytes(FormatToBitCount(format)))
  }

  /** The biCompression store, preceded for 5-6-5 RGB by the store of the red, green and blue masks. */
  function CompressionAndMasks(b: seq<Byte>, format: PixelFormat): (r: seq<Byte>)
    requires InfoSize(format) == |b|
    ensures |r| == |b|
  {
    if format == Format16bppRgb565 then
      Put(Put(Put(Put(b, 16, Int32Bytes(BiBitFields)), 40, Int32Bytes(0xF800)), 44, Int32Bytes(0x07E0)), 48, Int32Bytes(0x001F))
    else
      Put(b, 16, Int32Bytes(BiRgb))
  }

  /** The stores of biSize, biWidth and biHeight (the negated height: a top-down bitmap). */
  function SizeAndExtent(b: seq<Byte>, width: Int32, height: Int32): (r: seq<Byte>)
    requires 12 <= |b|
    ensures |r| == |b|
  {
    Put(Put(Put(b, 0, Int32Bytes(40)), 4, Int32Bytes(width)), 8, Int32Bytes(Negate(height)))
  }

  /** The stores of biSizeImage, biXPelsPerMeter, biYPelsPerMeter, biClrUsed and biClrImportant. */
  function ImageFields(b: seq<Byte>): (r: seq<Byte>)
    requires 40 <= |b|
    ensures |r| == |b|
  {
    Put(Put(Put(Put(Put(b, 20, Int32Bytes(0)), 24, Int32Bytes(PelsPerMeter)), 28, Int32Bytes(PelsPerMeter)), 32, Int32Bytes(0)), 36, Int32Bytes(0))
  }

  /** The header stores of GetBitmapInfo, in the order it makes them, on a new zeroed buffer. */
  function HeaderWrites(format: PixelFormat, width: Int32, height: Int32): (b: seq<Byte>)
    ensures |b| == InfoSize(format)
  {
    ImageFields(BeforeImageFields(format, width, height))
  }

  /** What the first three stores leave: biSize, biWidth and biHeight, then b's bytes from 12 on. */
  lemma SizeAndExtentLayout(b: seq<Byte>, width: Int32, height: Int32)
    requires 12 <= |b|
    ensures SizeAndExtent(b, width, height) == Int32Bytes(40) + Int32Bytes(width) + Int32Bytes(Negate(height)) + b[12..]
  {
    var r := SizeAndExtent(b, width, height);
    assert r == r[..4] + r[4..8] + r[8..12] + r[12..];
  }

  /** The two overlapping 32-bit stores leave the 16-bit biPlanes and biBitCount at 12 and 14 and zeros (the high half of biBitCount) at 16 and 17. */
  lemma PlanesAndBitCountLayout(b: seq<Byte>, format: PixelFormat)
    requires 18 <= |b|
    ensures PlanesAndBitCount(b, format) == b[..12] + UInt16Bytes(1) + UInt16Bytes(FormatToBitCount(format)) + [0, 0] + b[18..]
  {
    var bits := FormatToBitCount(format);
    var p1 := Put(b, 12, Int32Bytes(1));
    var r := Put(p1, 14, Int32Bytes(bits));
    SmallWord(1);
    SmallWord(bits);
    assert r[12..14] == p1[12..14] == UInt16Bytes(1);
    assert r[14..18] == UInt16Bytes(bits) + [0, 0];
    assert r == r[..12] + r[12..14] + r[14..18] + r[18..];
  }

  /** A value that fits in 16 bits is stored by WriteInt32 as its 16-bit form and two zero bytes. */
  lemma SmallWord(v: Int32)
    requires 0 <= v < 0x1_0000
    ensures Int32Bytes(v) == UInt16Bytes(v) + [0, 0]
  {
  }

  /** The compression store covers 16 .. 19, the mask stores 40 .. 51; the rest of b stays. */
  lemma CompressionAndMasksLayout(b: seq<Byte>, format: PixelFormat)
    requires InfoSize(format) == |b|
    ensures CompressionAndMasks(b, format)
         == b[..16] + Int32Bytes(Compression(format)) + b[20..40] + ColourMasks(format) + b[40 + |ColourMasks(format)|..]
  {
    var r := CompressionAndMasks(b, format);
    if format == Format16bppRgb565 {
      assert r[40..52] == r[40..44] + r[44..48] + r[48..52];
      assert r == r[..16] + r[16..20] + r[20..40] + r[40..52] + r[52..];
    } else {
      assert r == r[..16] + r[16..20] + r[20..];
    }
  }

  /** The last five stores cover 20 .. 39; the rest of b stays. */
  lemma ImageFieldsLayout(b: seq<Byte>)
    requires 40 <= |b|
    ensures ImageFields(b) == b[..20] + Int32Bytes(0) + Int32Bytes(PelsPerMeter) + Int32Bytes(PelsPerMeter) + Int32Bytes(0) + Int32Bytes(0) + b[40..]
  {
    var r := ImageFields(b);
    assert r == r[..20] + r[20..24] + r[24..28] + r[28..32] + r[32..36] + r[36..40] + r[40..];
  }

  /** The 5-6-5 colour masks stored after the header for Format16bppRgb565: red, green, blue. */
  function ColourMasks(format: PixelFormat): (bs: seq<Byte>)
    ensures |bs| == InfoSize(format) - 40 || (|bs| == 0 && format != Format16bppRgb565)
    ensures |bs| == if format == Format16bppRgb565 then 12 else 0
  {
    if format == Format16bppRgb565 then Int32Bytes(0xF800) + Int32Bytes(0x07E0) + Int32Bytes(0x001F) else []
  }

  /**
   * The BITMAPINFOHEADER as the DIB format lays it out, field after field
   * without overlap: biSize, biWidth, biHeight, the 16-bit biPlanes and
   * biBitCount, biCompression, biSizeImage, biXPelsPerMeter,
   * biYPelsPerMeter, biClrUsed, biClrImportant.
   */
  function StandardHeader(format: PixelFormat, width: Int32, height: Int32): (bs: seq<Byte>)
    ensures |bs| == 40
  {
    Int32Bytes(40) + Int32Bytes(width) + Int32Bytes(Negate(height))
    + UInt16Bytes(1) + UInt16Bytes(FormatToBitCount(format))
    + Int32Bytes(Compression(format)) + Int32Bytes(0)
    + Int32Bytes(PelsPerMeter) + Int32Bytes(PelsPerMeter)
    + Int32Bytes(0) + Int32Bytes(0)
  }

  /**
   * The overlapping stores come out right: the 32-bit stores of biPlanes
   * and biBitCount leave their low halves in place, and the stores that
   * follow overwrite the high halves, so the buffer holds the standard
   * header, then the masks (5-6-5 RGB only), then zeros.
   */
  lemma HeaderLayout(format: PixelFormat, width: Int32, height: Int32)
    ensures HeaderWrites(format, width, height)
         == StandardHeader(format, width, height) + ColourMasks(format) + Zeros(InfoSize(format) - 40 - |ColourMasks(format)|)
  {
    var masks := ColourMasks(format);
    var rest := Zeros(InfoSize(format) - 40 - |masks|);
    var b3 := BeforeImageFields(format, width, height);
    ImageFieldsLayout(b3);
    LeadingFields(format, width, height);
    TrailingBytes(format, width, height);
    assert StandardHeader(format, width, height) + masks + rest == StandardHeader(format, width, height) + (masks + rest);
  }

  /** The buffer after the stores of biSize up to biCompression and the masks. */
  function BeforeImageFields(format: PixelFormat, width: Int32, height: Int32): (b: seq<Byte>)
    ensures |b| == InfoSize(format)
  {
    CompressionAndMasks(PlanesAndBitCount(SizeAndExtent(Zeros(InfoSize(format)), width, height), format), format)
  }

  /** Bytes 0 .. 19 after the stores up to biCompression: the first six fields, in their standard widths. */
  lemma LeadingFields(format: PixelFormat, width: Int32, height: Int32)
    ensures BeforeImageFields(format, width, height)[..20]
         == Int32Bytes(40) + Int32Bytes(width) + Int32Bytes(Negate(height))
            + UInt16Bytes(1) + UInt16Bytes(FormatToBitCount(format)) + Int32Bytes(Compression(format))
  {
    var b1 := SizeAndExtent(Zeros(InfoSize(format)), width, height);
    var b2 := PlanesAndBitCount(b1, format);
    SizeAndExtentLayout(Zeros(InfoSize(format)), width, height);
    PlanesAndBitCountLayout(b1, format);
    CompressionAndMasksLayout(b2, format);
    assert b1[..12] == Int32Bytes(40) + Int32Bytes(width) + Int32Bytes(Negate(height));
    assert b2[..16] == b1[..12] + UInt16Bytes(1) + UInt16Bytes(FormatToBitCount(format));
  }

  /** Bytes 40 on after the stores up to biCompression: the masks, if any, then zeros. */
  lemma TrailingBytes(format: PixelFormat, width: Int32, height: Int32)
    ensures BeforeImageFields(format, width, height)[40..] == ColourMasks(format) + Zeros(InfoSize(format) - 40 - |ColourMasks(format)|)
  {
    var b1 := SizeAndExtent(Zeros(InfoSize(format)), width, height);
    var b2 := PlanesAndBitCount(b1, format);
    SizeAndExtentLayout(Zeros(InfoSize(format)), width, height);
    PlanesAndBitCountLayout(b1, format);
    CompressionAndMasksLayout(b2, format);
    assert b2[40 + |ColourMasks(format)|..] == Zeros(InfoSize(format) - 40 - |ColourMasks(format)|);
  }

  /** x sits at offset |a| of a + x + c. */
  lemma PieceAt(a: seq<Byte>, x: seq<Byte>, c: seq<Byte>)
    ensures (a + x + c)[|a|..|a| + |x|] == x
  {
  }

  /** Read back field by field, the standard header holds the values GetBitmapInfo stores. */
  lemma StandardHeaderFields(format: PixelFormat, width: Int32, height: Int32)
    ensures var h := StandardHeader(format, width, height);
      && DecodeInt32(h[0..4]) == 40 && DecodeInt32(h[4..8]) == width && DecodeInt32(h[8..12]) == Negate(height)
      && DecodeUInt16(h[12..14]) == 1 && DecodeUInt16(h[14..16]) == FormatToBitCount(format) as int
      && DecodeInt32(h[16..20]) == Compression(format) && DecodeInt32(h[20..24]) == 0
      && DecodeInt32(h[24..28]) == PelsPerMeter && DecodeInt32(h[28..32]) == PelsPerMeter
      && DecodeInt32(h[32..36]) == 0 && DecodeInt32(h[36..40]) == 0
  {
    var bits := FormatToBitCount(format);
    var h := StandardHeader(format, width, height);
    var p1 := Int32Bytes(40);
    var p2 := p1 + Int32Bytes(width);
    var p3 := p2 + Int32Bytes(Negate(height));
    var p4 := p3 + UInt16Bytes(1);
    var p5 := p4 + UInt16Bytes(bits);
    var p6 := p5 + Int32Bytes(Compression(format));
    var p7 := p6 + Int32Bytes(0);
    var p8 := p7 + Int32Bytes(PelsPerMeter);
    var p9 := p8 + Int32Bytes(PelsPerMeter);
    var p10 := p9 + Int32Bytes(0);
    assert h == p10 + Int32Bytes(0);
    assert h[0..4] == Int32Bytes(40) by { PieceAt([], p1, h[4..]); assert h == [] + p1 + h[4..]; }
    assert h[4..8] == Int32Bytes(width) by { PieceAt(p1, Int32Bytes(width), h[8..]); assert h == p1 + Int32Bytes(width) + h[8..]; }
    assert h[8..12] == Int32Bytes(Negate(height)) by { PieceAt(p2, Int32Bytes(Negate(height)), h[12..]); assert h == p2 + Int32Bytes(Negate(height)) + h[12..]; }
    assert h[12..14] == UInt16Bytes(1) by { PieceAt(p3, UInt16Bytes(1), h[14..]); assert h == p3 + UInt16Bytes(1) + h[14..]; }
    assert h[14..16] == UInt16Bytes(bits) by { PieceAt(p4, UInt16Bytes(bits), h[16..]); assert h == p4 + UInt16Bytes(bits) + h[16..]; }
    assert h[16..20] == Int32Bytes(Compression(format)) by { PieceAt(p5, Int32Bytes(Compression(format)), h[20..]); assert h == p5 + Int32Bytes(Compression(format)) + h[20..]; }
    assert h[20..24] == Int32Bytes(0) by { PieceAt(p6, Int32Bytes(0), h[24..]); assert h == p6 + Int32Bytes(0) + h[24..]; }
    assert h[24..28] == Int32Bytes(PelsPerMeter) by { PieceAt(p7, Int32Bytes(PelsPerMeter), h[28..]); assert h == p7 + Int32Bytes(PelsPerMeter) + h[28..]; }
    assert h[28..32] == Int32Bytes(PelsPerMeter) by { PieceAt(p8, Int32Bytes(PelsPerMeter), h[32..]); assert h == p8 + Int32Bytes(PelsPerMeter) + h[32..]; }
    assert h[32..36] == Int32Bytes(0) by { PieceAt(p9, Int32Bytes(0), h[36..]); assert h == p9 + Int32Bytes(0) + h[36..]; }
    assert h[36..40] == Int32Bytes(0) by { PieceAt(p10, Int32Bytes(0), []); assert h == p10 + Int32Bytes(0) + []; }
    Int32RoundTrip(40);
    Int32RoundTrip(width);
    Int32RoundTrip(Negate(height));
    UInt16RoundTrip(1);
    UInt16RoundTrip(bits);
    Int32RoundTrip(Compression(format));
    Int32RoundTrip(0);
    Int32RoundTrip(PelsPerMeter);
  }

  /** Read back, the 5-6-5 masks are red 0xF800, green 0x07E0 and blue 0x001F. */
  lemma ColourMaskValues()
    ensures var m := ColourMasks(Format16bppRgb565);
      DecodeInt32(m[0..4]) == 0xF800 && DecodeInt32(m[4..8]) == 0x07E0 && DecodeInt32(m[8..12]) == 0x001F
  {
    var m := ColourMasks(Format16bppRgb565);
    PieceAt([], Int32Bytes(0xF800), m[4..]);
    PieceAt(Int32Bytes(0xF800), Int32Bytes(0x07E0), Int32Bytes(0x001F));
    PieceAt(Int32Bytes(0xF800) + Int32Bytes(0x07E0), Int32Bytes(0x001F), []);
    assert m == [] + Int32Bytes(0xF800) + m[4..];
    assert m == Int32Bytes(0xF800) + Int32Bytes(0x07E0) + Int32Bytes(0x001F) + [];
    Int32RoundTrip(0xF800);
    Int32RoundTrip(0x07E0);
    Int32RoundTrip(0x001F);
  }

  /**
   * The palette loop after n passes: entries 0 .. n - 1 stored as RGBQUADs
   * at 40 + 4 * i, in order; None once an entry would run past the buffer,
   * where the store throws IndexOutOfRangeException.
   */
  function WritePalette(b: seq<Byte>, palette: seq<Int32>, n: nat): (r: Option<seq<Byte>>)
    requires 40 <= |b| && n <= |palette|
    ensures r.None? <==> |b| < 40 + 4 * n
    ensures r.Some? ==> |r.value| == |b|
    decreases n
  {
    if n == 0 then Some(b)
    else
      var prev := WritePalette(b, palette, n - 1);
      if prev.Some? && 40 + 4 * (n - 1) + 4 <= |b| then Some(Put(prev.value, 40 + 4 * (n - 1), BgrBytes(palette[n - 1])))
      else None
  }

  /** A palette part that fits leaves the first 40 bytes and the bytes after it alone and holds entry i at 40 + 4 * i. */
  lemma {:induction false} PaletteLayout(b: seq<Byte>, palette: seq<Int32>, n: nat)
    requires n <= |palette| && 40 + 4 * n <= |b|
    ensures WritePalette(b, palette, n).Some?
    ensures var r := WritePalette(b, palette, n).value;
      && r[..40] == b[..40] && r[40 + 4 * n..] == b[40 + 4 * n..]
      && forall i :: 0 <= i < n ==> r[40 + 4 * i..40 + 4 * i + 4] == BgrBytes(palette[i])
    decreases n
  {
    if n > 0 {
      PaletteLayout(b, palette, n - 1);
      var r' := WritePalette(b, palette, n - 1).value;
      var r := WritePalette(b, palette, n).value;
      var o := 40 + 4 * (n - 1);
      assert r == Put(r', o, BgrBytes(palette[n - 1]));
      forall i | 0 <= i < n
        ensures r[40 + 4 * i..40 + 4 * i + 4] == BgrBytes(palette[i])
      {
        if i < n - 1 {
          assert r[40 + 4 * i..40 + 4 * i + 4] == r'[40 + 4 * i..40 + 4 * i + 4];
        }
      }
      assert r[o + 4..] == r'[o + 4..] == b[o + 4..] by {
        assert r'[o + 4..] == r'[o..][4..];
        assert b[o + 4..] == b[o..][4..];
      }
    }
  }

  /** The bytes GetBitmapInfo returns, or None for the index error of a palette too long for the buffer. */
  function Info(format: PixelFormat, width: Int32, height: Int32, palette: Option<seq<Int32>>): (r: Option<seq<Byte>>)
    ensures r.None? <==> palette.Some? && InfoSize(format) < 40 + 4 * |palette.value|
    ensures r.Some? ==> |r.value| == InfoSize(format)
  {
    if palette.None? then Some(HeaderWrites(format, width, height))
    else WritePalette(HeaderWrites(format, width, height), palette.value, |palette.value|)
  }

  /**
   * How many palette entries GetBitmapInfo accepts before the index error:
   * 3 for 5-6-5 RGB (over the masks), 256 for 8 bits, 26 for 4 bits and 12
   * for 1 bit (the extra 40 bytes those sizes add make room beyond the 16
   * and 2 colours of the format), none for the rest.
   */
  lemma PaletteCapacity(format: PixelFormat, width: Int32, height: Int32, palette: seq<Int32>)
    ensures Info(format, width, height, Some(palette)).Some? <==>
      |palette| <= match format
        case Format16bppRgb565 => 3
        case Format8bppIndexed => 256
        case Format4bppIndexed => 26
        case Format1bppIndexed => 12
        case _ => 0
  {
    InfoSizes();
  }

  /** a and c are the two halves of a + c. */
  lemma SplitAt(a: seq<Byte>, c: seq<Byte>)
    ensures (a + c)[..|a|] == a && (a + c)[|a|..] == c
  {
  }

  /** Without a palette GetBitmapInfo holds the standard header, then the masks (5-6-5 RGB only), then zeros. */
  lemma InfoWithoutPalette(format: PixelFormat, width: Int32, height: Int32)
    ensures var r := Info(format, width, height, None).value;
      && r[..40] == StandardHeader(format, width, height)
      && r[40..] == ColourMasks(format) + Zeros(InfoSize(format) - 40 - |ColourMasks(format)|)
  {
    var masks := ColourMasks(format);
    HeaderLayout(format, width, height);
    SplitAt(StandardHeader(format, width, height), masks + Zeros(InfoSize(format) - 40 - |masks|));
    assert StandardHeader(format, width, height) + masks + Zeros(InfoSize(format) - 40 - |masks|)
        == StandardHeader(format, width, height) + (masks + Zeros(InfoSize(format) - 40 - |masks|));
  }

  /**
   * With a palette that fits, GetBitmapInfo holds the standard header,
   * entry i as an RGBQUAD at 40 + 4 * i, and the header's bytes after the
   * last entry (for 5-6-5 RGB the masks the entries did not overwrite).
   */
  lemma InfoWithPalette(format: PixelFormat, width: Int32, height: Int32, palette: seq<Int32>)
    requires 40 + 4 * |palette| <= InfoSize(format)
    ensures Info(format, width, height, Some(palette)).Some?
    ensures var r := Info(format, width, height, Some(palette)).value;
      && r[..40] == StandardHeader(format, width, height)
      && (forall i :: 0 <= i < |palette| ==> r[40 + 4 * i..40 + 4 * i + 4] == BgrBytes(palette[i]))
      && r[40 + 4 * |palette|..] == HeaderWrites(format, width, height)[40 + 4 * |palette|..]
  {
    var h := HeaderWrites(format, width, height);
    InfoWithoutPalette(format, width, height);
    PaletteLayout(h, palette, |palette|);
  }

  /** The header stores of GetBitmapInfo, in order, on its new zeroed buffer. */
  method StoreHeader(bitmapInfo: array<Byte>, format: PixelFormat, width: Int32, height: Int32)
    requires bitmapInfo[..] == Zeros(InfoSize(format))
    modifies bitmapInfo
    ensures bitmapInfo[..] == HeaderWrites(format, width, height)
  {
    ghost var b0 := bitmapInfo[..];
    WriteInt32(bitmapInfo, 0, 40);
    WriteInt32(bitmapInfo, 4, width);
    WriteInt32(bitmapInfo, 8, Negate(height));
    ghost var b1 := bitmapInfo[..];
    assert b1 == SizeAndExtent(b0, width, height);
    WriteInt32(bitmapInfo, 12, 1);
    WriteInt32(bitmapInfo, 14, FormatToBitCount(format));
    ghost var b2 := bitmapInfo[..];
    assert b2 == PlanesAndBitCount(b1, format);
    if format == Format16bppRgb565 {
      WriteInt32(bitmapInfo, 16, BiBitFields);
      WriteInt32(bitmapInfo, 40, 0xF800);
      WriteInt32(bitmapInfo, 44, 0x07E0);
      WriteInt32(bitmapInfo, 48, 0x001F);
    } else {
      WriteInt32(bitmapInfo, 16, BiRgb);
    }
    ghost var b3 := bitmapInfo[..];
    assert b3 == CompressionAndMasks(b2, format);
    WriteInt32(bitmapInfo, 20, 0);
    WriteInt32(bitmapInfo, 24, PelsPerMeter);
    WriteInt32(bitmapInfo, 28, PelsPerMeter);
    WriteInt32(bitmapInfo, 32, 0);
    WriteInt32(bitmapInfo, 36, 0);
  }

  /**
   * The palette loop of GetBitmapInfo: entry i as an RGBQUAD at 40 + 4 * i;
   * false where a store would throw IndexOutOfRangeException, which
   * abandons the buffer.
   */
  method StorePalette(bitmapInfo: array<Byte>, entries: seq<Int32>) returns (stored: bool)
    requires 40 <= bitmapInfo.Length
    modifies bitmapInfo
    ensures stored <==> WritePalette(old(bitmapInfo[..]), entries, |entries|).Some?
    ensures stored ==> bitmapInfo[..] == WritePalette(old(bitmapInfo[..]), entries, |entries|).value
  {
    ghost var header := bitmapInfo[..];
    for i := 0 to |entries|
      invariant WritePalette(header, entries, i) == Some(bitmapInfo[..])
    {
      if bitmapInfo.Length < 40 + i * 4 + 4 {
        return false;
      }
      WriteBGR(bitmapInfo, 40 + i * 4, entries[i]);
    }
    return true;
  }

  /**
   * GetBitmapInfo: allocate the buffer for the format, store the header
   * fields (and the 5-6-5 masks), then the palette entries if there is a
   * palette; the index error of a palette that does not fit is None.
   */
  method GetBitmapInfo(format: PixelFormat, width: Int32, height: Int32, palette: Option<seq<Int32>>)
    returns (info: Option<array<Byte>>)
    ensures info.None? <==> Info(format, width, height, palette).None?
    ensures info.Some? ==> fresh(info.value) && info.value[..] == Info(format, width, height, palette).value
  {
    var size := 40;
    if format == Format16bppRgb565 {
      size := size + 3 * 4;
    } else if format == Format8bppIndexed {
      size := size + 256 * 4;
    } else if format == Format4bppIndexed {
      size := size + 40 + 16 * 4;
    } else if format == Format1bppIndexed {
      size := size + 40 + 2 * 4;
    }
    var bitmapInfo := new Byte[size](_ => 0);
    assert bitmapInfo[..] == Zeros(InfoSize(format));
    StoreHeader(bitmapInfo, format, width, height);
    if palette.Some? {
      var stored := StorePalette(bitmapInfo, palette.value);
      if !stored {
        return None;
      }
    }
    return Some(bitmapInfo);
  }
}
