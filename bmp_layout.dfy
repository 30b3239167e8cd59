/** The packed on-disk layout shared by both EdgeVision variants:
    the scalar typedefs, the 14-byte BITMAPFILEHEADER and the 40-byte
    BITMAPINFOHEADER (little-endian, no padding), the palette capacity,
    the sample-window size and the lightweight-bridge register map. */
module BmpLayout {
  import opened Bytes

  /** WORD, DWORD and LONG: unsigned 16-bit, unsigned 32-bit, signed 32-bit. */
  type Word = x: int | 0 <= x < 0x1_0000
  type Dword = x: int | 0 <= x < 0x1_0000_0000
  type Long = x: int | -0x8000_0000 <= x < 0x8000_0000

  const FILE_HEADER_SIZE: nat := 14
  const INFO_HEADER_SIZE: nat := 40
  /** sizeof(BITMAPFILEHEADER) + sizeof(BITMAPINFOHEADER) */
  const HEADERS_SIZE: nat := FILE_HEADER_SIZE + INFO_HEADER_SIZE
  /** "BM" read as a little-endian WORD */
  const BMP_MAGIC: Word := 0x4D42
  /** biColourPalette[1024]: 256 entries of 4 bytes */
  const PALETTE_CAPACITY: nat := 1024
  const PALETTE_ENTRY_SIZE: nat := 4
  /** number of samples in one accelerator request window */
  const SIZE_BUFFER: nat := 3

  const LW_BRIDGE_BASE: nat := 0xFF20_0000
  const LW_BRIDGE_SPAN: nat := 0x20_0000
  const PIXEL_IN_PIO_BASE: nat := 0x5_0000
  const PIXEL_IN_PIO_WIDTH: nat := 4
  const PIXEL_OUT_PIO_BASE: nat := 0x4_0000
  const PIXEL_OUT_PIO_WIDTH: nat := 1

  datatype FileHeader = FileHeader(
    bfType: Word,
    bfSize: Dword,
    bfReserved: Word,
    bfReserved2: Word,
    bfOffBits: Dword)

  datatype InfoHeader = InfoHeader(
    biSize: Dword,
    biWidth: Long,
    biHeight: Long,
    biPlanes: Word,
    biBitCount: Word,
    biCompression: Dword,
    biSizeImage: Dword,
    biXPelsPerMeter: Long,
    biYPelsPerMeter: Long,
    biClrUsed: Dword,
    biClrImportant: Dword)

  /** Both registers lie wholly inside the mapped bridge window, and they do not overlap. */
  lemma RegistersInsideBridge()
    ensures PIXEL_IN_PIO_BASE + PIXEL_IN_PIO_WIDTH <= LW_BRIDGE_SPAN
    ensures PIXEL_OUT_PIO_BASE + PIXEL_OUT_PIO_WIDTH <= LW_BRIDGE_SPAN
    ensures PIXEL_OUT_PIO_BASE + PIXEL_OUT_PIO_WIDTH <= PIXEL_IN_PIO_BASE
  {
  }

  // ---------------------------------------------------------------------
  // Little-endian scalars

  function WordBytes(x: Word): (r: seq<byte>)
    ensures |r| == 2
  {
    [(x % 0x100) as byte, (x / 0x100) as byte]
  }

  function DwordBytes(x: Dword): (r: seq<byte>)
    ensures |r| == 4
  {
    WordBytes(x % 0x1_0000) + WordBytes(x / 0x1_0000)
  }

  /** A LONG is stored as the DWORD with the same 32-bit two's-complement pattern. */
  function LongBytes(x: Long): (r: seq<byte>)
    ensures |r| == 4
  {
    DwordBytes(if x < 0 then x + 0x1_0000_0000 else x)
  }

  function ReadWord(s: seq<byte>, at: nat): Word
    requires at + 2 <= |s|
  {
    s[at] as int + 0x100 * s[at + 1] as int
  }

  function ReadDword(s: seq<byte>, at: nat): Dword
    requires at + 4 <= |s|
  {
    ReadWord(s, at) + 0x1_0000 * ReadWord(s, at + 2)
  }

  function ReadLong(s: seq<byte>, at: nat): Long
    requires at + 4 <= |s|
  {
    var u := ReadDword(s, at);
    if u >= 0x8000_0000 then u - 0x1_0000_0000 else u
  }

  lemma WordRoundTrip(pre: seq<byte>, x: Word, post: seq<byte>)
    ensures ReadWord(pre + WordBytes(x) + post, |pre|) == x
  {
    var s := pre + WordBytes(x) + post;
    assert s[|pre|] == (x % 0x100) as byte && s[|pre| + 1] == (x / 0x100) as byte;
  }

  lemma DwordRoundTrip(pre: seq<byte>, x: Dword, post: seq<byte>)
    ensures ReadDword(pre + DwordBytes(x) + post, |pre|) == x
  {
    var lo, hi := WordBytes(x % 0x1_0000), WordBytes(x / 0x1_0000);
    assert pre + DwordBytes(x) + post == pre + lo + (hi + post);
    WordRoundTrip(pre, x % 0x1_0000, hi + post);
    assert pre + DwordBytes(x) + post == (pre + lo) + hi + post;
    WordRoundTrip(pre + lo, x / 0x1_0000, post);
  }

  lemma LongRoundTrip(pre: seq<byte>, x: Long, post: seq<byte>)
    ensures ReadLong(pre + LongBytes(x) + post, |pre|) == x
  {
    DwordRoundTrip(pre, if x < 0 then x + 0x1_0000_0000 else x, post);
  }

  /** The magic check accepts exactly the files whose first two bytes are 'B', 'M'. */
  lemma MagicIsBM(s: seq<byte>)
    requires |s| >= 2
    ensures ReadWord(s, 0) == BMP_MAGIC <==> s[0] as int == 'B' as int && s[1] as int == 'M' as int
  {
    if ReadWord(s, 0) == BMP_MAGIC {
      assert s[0] as int == 0x42 && s[1] as int == 0x4D;
    }
  }

  // ---------------------------------------------------------------------
  // Packed headers

  /** BITMAPFILEHEADER, pack(1): bfType @0, bfSize @2, bfReserved @6, bfReserved2 @8, bfOffBits @10. */
  function EncodeFileHeader(h: FileHeader): (r: seq<byte>)
    ensures |r| == FILE_HEADER_SIZE
  {
    WordBytes(h.bfType) + DwordBytes(h.bfSize) + WordBytes(h.bfReserved)
      + WordBytes(h.bfReserved2) + DwordBytes(h.bfOffBits)
  }

  function DecodeFileHeader(s: seq<byte>, at: nat): FileHeader
    requires at + FILE_HEADER_SIZE <= |s|
  {
    FileHeader(ReadWord(s, at), ReadDword(s, at + 2), ReadWord(s, at + 6),
               ReadWord(s, at + 8), ReadDword(s, at + 10))
  }

  /** BITMAPINFOHEADER, pack(1): biSize @0, biWidth @4, biHeight @8, biPlanes @12,
      biBitCount @14, biCompression @16, biSizeImage @20, biXPelsPerMeter @24,
      biYPelsPerMeter @28, biClrUsed @32, biClrImportant @36. */
  function EncodeInfoHeader(h: InfoHeader): (r: seq<byte>)
    ensures |r| == INFO_HEADER_SIZE
  {
    InfoHeaderGeometry(h) + InfoHeaderRest(h)
  }

  /** Bytes 0..16 of the packed info header. */
  function InfoHeaderGeometry(h: InfoHeader): (r: seq<byte>)
    ensures |r| == 16
  {
    DwordBytes(h.biSize) + LongBytes(h.biWidth) + LongBytes(h.biHeight)
      + WordBytes(h.biPlanes) + WordBytes(h.biBitCount)
  }

  /** Bytes 16..40 of the packed info header. */
  function InfoHeaderRest(h: InfoHeader): (r: seq<byte>)
    ensures |r| == 24
  {
    DwordBytes(h.biCompression) + DwordBytes(h.biSizeImage) + LongBytes(h.biXPelsPerMeter)
      + (LongBytes(h.biYPelsPerMeter) + DwordBytes(h.biClrUsed) + DwordBytes(h.biClrImportant))
  }

  function DecodeInfoHeader(s: seq<byte>, at: nat): InfoHeader
    requires at + INFO_HEADER_SIZE <= |s|
  {
    InfoHeader(ReadDword(s, at), ReadLong(s, at + 4), ReadLong(s, at + 8),
               ReadWord(s, at + 12), ReadWord(s, at + 14), ReadDword(s, at + 16),
               ReadDword(s, at + 20), ReadLong(s, at + 24), ReadLong(s, at + 28),
               ReadDword(s, at + 32), ReadDword(s, at + 36))
  }

  /** Serialising a file header and parsing it back from where it was written is a
      field-exact round trip, whatever bytes surround it. */
  lemma FileHeaderRoundTrip(pre: seq<byte>, h: FileHeader, post: seq<byte>)
    ensures |pre| + FILE_HEADER_SIZE <= |pre + EncodeFileHeader(h) + post|
    ensures DecodeFileHeader(pre + EncodeFileHeader(h) + post, |pre|) == h
  {
    var s := pre + EncodeFileHeader(h) + post;
    var b0, b1, b2, b3, b4 := WordBytes(h.bfType), DwordBytes(h.bfSize), WordBytes(h.bfReserved),
                              WordBytes(h.bfReserved2), DwordBytes(h.bfOffBits);
    assert s == pre + b0 + (b1 + b2 + b3 + b4 + post);
    WordRoundTrip(pre, h.bfType, b1 + b2 + b3 + b4 + post);
    assert s == (pre + b0) + b1 + (b2 + b3 + b4 + post);
    DwordRoundTrip(pre + b0, h.bfSize, b2 + b3 + b4 + post);
    assert s == (pre + b0 + b1) + b2 + (b3 + b4 + post);
    WordRoundTrip(pre + b0 + b1, h.bfReserved, b3 + b4 + post);
    assert s == (pre + b0 + b1 + b2) + b3 + (b4 + post);
    WordRoundTrip(pre + b0 + b1 + b2, h.bfReserved2, b4 + post);
    assert s == (pre + b0 + b1 + b2 + b3) + b4 + post;
    DwordRoundTrip(pre + b0 + b1 + b2 + b3, h.bfOffBits, post);
  }

  /** The first five info-header fields read back from their packed bytes. */
  lemma {:induction false} GeometryRoundTrip(pre: seq<byte>, h: InfoHeader, post: seq<byte>)
    ensures |pre| + 16 <= |pre + InfoHeaderGeometry(h) + post|
    ensures var s := pre + InfoHeaderGeometry(h) + post;
      && ReadDword(s, |pre|) == h.biSize && ReadLong(s, |pre| + 4) == h.biWidth
      && ReadLong(s, |pre| + 8) == h.biHeight && ReadWord(s, |pre| + 12) == h.biPlanes
      && ReadWord(s, |pre| + 14) == h.biBitCount
  {
    var s := pre + InfoHeaderGeometry(h) + post;
    var b0, b1, b2, b3, b4 := DwordBytes(h.biSize), LongBytes(h.biWidth), LongBytes(h.biHeight),
                              WordBytes(h.biPlanes), WordBytes(h.biBitCount);
    assert s == pre + b0 + (b1 + b2 + b3 + b4 + post);
    DwordRoundTrip(pre, h.biSize, b1 + b2 + b3 + b4 + post);
    assert s == (pre + b0) + b1 + (b2 + b3 + b4 + post);
    LongRoundTrip(pre + b0, h.biWidth, b2 + b3 + b4 + post);
    assert s == (pre + b0 + b1) + b2 + (b3 + b4 + post);
    LongRoundTrip(pre + b0 + b1, h.biHeight, b3 + b4 + post);
    assert s == (pre + b0 + b1 + b2) + b3 + (b4 + post);
    WordRoundTrip(pre + b0 + b1 + b2, h.biPlanes, b4 + post);
    assert s == (pre + b0 + b1 + b2 + b3) + b4 + post;
    WordRoundTrip(pre + b0 + b1 + b2 + b3, h.biBitCount, post);
  }

  /** The last six info-header fields read back from their packed bytes. */
  lemma {:induction false} RestRoundTrip(pre: seq<byte>, h: InfoHeader, post: seq<byte>)
    ensures |pre| + 24 <= |pre + InfoHeaderRest(h) + post|
    ensures var s := pre + InfoHeaderRest(h) + post;
      && ReadDword(s, |pre|) == h.biCompression && ReadDword(s, |pre| + 4) == h.biSizeImage
      && ReadLong(s, |pre| + 8) == h.biXPelsPerMeter && ReadLong(s, |pre| + 12) == h.biYPelsPerMeter
      && ReadDword(s, |pre| + 16) == h.biClrUsed && ReadDword(s, |pre| + 20) == h.biClrImportant
  {
    var s := pre + InfoHeaderRest(h) + post;
    var b0, b1, b2 := DwordBytes(h.biCompression), DwordBytes(h.biSizeImage), LongBytes(h.biXPelsPerMeter);
    var tail := LongBytes(h.biYPelsPerMeter) + DwordBytes(h.biClrUsed) + DwordBytes(h.biClrImportant);
    assert ReadDword(s, |pre|) == h.biCompression by {
      assert s == pre + b0 + (b1 + b2 + tail + post);
      DwordRoundTrip(pre, h.biCompression, b1 + b2 + tail + post);
    }
    assert ReadDword(s, |pre| + 4) == h.biSizeImage by {
      assert s == (pre + b0) + b1 + (b2 + tail + post);
      DwordRoundTrip(pre + b0, h.biSizeImage, b2 + tail + post);
    }
    assert ReadLong(s, |pre| + 8) == h.biXPelsPerMeter by {
      assert s == (pre + b0 + b1) + b2 + (tail + post);
      LongRoundTrip(pre + b0 + b1, h.biXPelsPerMeter, tail + post);
    }
    assert s == (pre + b0 + b1 + b2) + tail + post;
    TailRoundTrip(pre + b0 + b1 + b2, h, post);
  }

  lemma {:induction false} TailRoundTrip(pre: seq<byte>, h: InfoHeader, post: seq<byte>)
    ensures var s := pre + (LongBytes(h.biYPelsPerMeter) + DwordBytes(h.biClrUsed) + DwordBytes(h.biClrImportant)) + post;
      && |pre| + 12 <= |s|
      && ReadLong(s, |pre|) == h.biYPelsPerMeter && ReadDword(s, |pre| + 4) == h.biClrUsed
      && ReadDword(s, |pre| + 8) == h.biClrImportant
  {
    var b0, b1, b2 := LongBytes(h.biYPelsPerMeter), DwordBytes(h.biClrUsed), DwordBytes(h.biClrImportant);
    var s := pre + (b0 + b1 + b2) + post;
    assert s == pre + b0 + (b1 + b2 + post);
    LongRoundTrip(pre, h.biYPelsPerMeter, b1 + b2 + post);
    assert s == (pre + b0) + b1 + (b2 + post);
    DwordRoundTrip(pre + b0, h.biClrUsed, b2 + post);
    assert s == (pre + b0 + b1) + b2 + post;
    DwordRoundTrip(pre + b0 + b1, h.biClrImportant, post);
  }

  /** Serialising an info header and parsing it back from where it was written is a
      field-exact round trip, whatever bytes surround it. */
  lemma InfoHeaderRoundTrip(pre: seq<byte>, h: InfoHeader, post: seq<byte>)
    ensures |pre| + INFO_HEADER_SIZE <= |pre + EncodeInfoHeader(h) + post|
    ensures DecodeInfoHeader(pre + EncodeInfoHeader(h) + post, |pre|) == h
  {
    var g, r := InfoHeaderGeometry(h), InfoHeaderRest(h);
    assert pre + EncodeInfoHeader(h) + post == pre + g + (r + post);
    GeometryRoundTrip(pre, h, r + post);
    assert pre + EncodeInfoHeader(h) + post == (pre + g) + r + post;
    RestRoundTrip(pre + g, h, post);
  }
}
