/** The BMP codec: LoadBitmapFile (identical in both programs) and the two
    SaveBitmapFile variants. A file is its byte content; the outcome of
    fopen, malloc/calloc and createDirectory is a parameter. The global
    colour palette biColourPalette[1024] is an array passed explicitly. */
module BitmapCodec {
  import opened BmpLayout
  import opened PixelLayout
  import opened Optional
  import opened Bytes

  /** What a successful load hands back: both headers, the palette bytes read
      into the global palette, and the pixel bytes. */
  datatype Bitmap = Bitmap(fileHeader: FileHeader, infoHeader: InfoHeader, palette: seq<byte>, pixels: seq<byte>)

  /** The malloc'd pixel buffer of a successful load, with the headers it filled in. */
  datatype Loaded = Loaded(fileHeader: FileHeader, infoHeader: InfoHeader, image: array<byte>)

  function PaletteSize(ih: InfoHeader): nat
  {
    ih.biClrUsed * PALETTE_ENTRY_SIZE
  }

  function Min(a: int, b: int): int
  {
    if a < b then a else b
  }

  // ---------------------------------------------------------------------
  // Loading

  /** A file on which LoadBitmapFile reads only initialised bytes: both
      headers are present when the magic matches, the palette (biClrUsed at
      offset 46) fits the 1024-byte global, and the pixel bytes (bfOffBits at
      offset 10, biSizeImage at offset 34) lie inside the file. */
  predicate Loadable(file: seq<byte>)
  {
    |file| >= FILE_HEADER_SIZE
    && (ReadWord(file, 0) == BMP_MAGIC ==>
          |file| >= HEADERS_SIZE
          && ReadDword(file, FILE_HEADER_SIZE + 32) * PALETTE_ENTRY_SIZE <= PALETTE_CAPACITY
          && ReadDword(file, 10) + ReadDword(file, FILE_HEADER_SIZE + 20) <= |file|)
  }

  /** The bytes fread copies into the palette: biClrUsed*4 bytes right after the
      54 header bytes, or as many of them as the file holds. */
  function PaletteRead(file: seq<byte>, ih: InfoHeader): (r: seq<byte>)
    requires |file| >= HEADERS_SIZE
    ensures |r| <= PaletteSize(ih)
    ensures |r| == PaletteSize(ih) <==> HEADERS_SIZE + PaletteSize(ih) <= |file|
  {
    file[HEADERS_SIZE..Min(HEADERS_SIZE + PaletteSize(ih), |file|)]
  }

  /** What LoadBitmapFile makes of a file that opened. */
  function ParseBitmap(file: seq<byte>): (r: Option<Bitmap>)
    requires Loadable(file)
    ensures r.Some? <==> file[0] as int == 'B' as int && file[1] as int == 'M' as int
    ensures r.Some? ==> |r.value.pixels| == r.value.infoHeader.biSizeImage
                        && |r.value.palette| <= PALETTE_CAPACITY
  {
    MagicIsBM(file);
    if ReadWord(file, 0) != BMP_MAGIC then None
    else
      var fh := DecodeFileHeader(file, 0);
      var ih := DecodeInfoHeader(file, FILE_HEADER_SIZE);
      assert fh.bfOffBits == ReadDword(file, 10) && ih.biSizeImage == ReadDword(file, FILE_HEADER_SIZE + 20);
      Some(Bitmap(fh, ih, PaletteRead(file, ih), file[fh.bfOffBits..fh.bfOffBits + ih.biSizeImage]))
  }

  /** malloc(size) followed by fread of `size` bytes from `offset`. */
  method ReadPixels(f: seq<byte>, offset: nat, size: nat) returns (image: array<byte>)
    requires offset + size <= |f|
    ensures fresh(image) && image[..] == f[offset..offset + size]
  {
    image := new byte[size](i requires 0 <= i < size => f[offset + i]);
  }

  /** fread into biColourPalette: the bytes read land at its front, the rest keeps its contents. */
  method ReadPalette(palette: array<byte>, bytes: seq<byte>)
    requires |bytes| <= palette.Length
    modifies palette
    ensures palette[..|bytes|] == bytes && palette[|bytes|..] == old(palette[|bytes|..])
  {
    forall i | 0 <= i < |bytes| {
      palette[i] := bytes[i];
    }
    assert palette[..|bytes|] == bytes;
  }

  /** LoadBitmapFile(filename, &infoHeader, &fileHeader). `file` is None when
      fopen fails; `allocates` is whether malloc(biSizeImage) succeeds. */
  method LoadBitmapFile(file: Option<seq<byte>>, allocates: bool, palette: array<byte>)
    returns (loaded: Option<Loaded>)
    requires palette.Length == PALETTE_CAPACITY
    requires file.Some? ==> Loadable(file.value)
    modifies palette
    ensures file.None? ==> loaded.None? && palette[..] == old(palette[..])
    ensures file.Some? && ParseBitmap(file.value).None? ==> loaded.None? && palette[..] == old(palette[..])
    ensures file.Some? && ParseBitmap(file.value).Some? ==>
      var b := ParseBitmap(file.value).value;
      && palette[..|b.palette|] == b.palette
      && palette[|b.palette|..] == old(palette[|b.palette|..])
      && (loaded.Some? <==> allocates)
      && (loaded.Some? ==>
            && loaded.value.fileHeader == b.fileHeader
            && loaded.value.infoHeader == b.infoHeader
            && fresh(loaded.value.image)
            && loaded.value.image[..] == b.pixels)
  {
    if file.None? {
      return None;
    }
    var f := file.value;
    var fileHeader := DecodeFileHeader(f, 0);
    if fileHeader.bfType != BMP_MAGIC {
      return None;
    }
    var infoHeader := DecodeInfoHeader(f, FILE_HEADER_SIZE);
    var paletteBytes := PaletteRead(f, infoHeader);
    var offset: nat, size: nat := fileHeader.bfOffBits, infoHeader.biSizeImage;
    assert offset + size <= |f|;
    assert ParseBitmap(f) == Some(Bitmap(fileHeader, infoHeader, paletteBytes, f[offset..offset + size]));
    ReadPalette(palette, paletteBytes);
    if !allocates {
      return None;
    }
    var image := ReadPixels(f, offset, size);
    loaded := Some(Loaded(fileHeader, infoHeader, image));
  }

  // ---------------------------------------------------------------------
  // Row stride

  /** The smallest multiple of 4 that is at least x. */
  function RoundUp4(x: nat): (r: nat)
    ensures r % 4 == 0 && x <= r < x + 4
  {
    (x + 3) / 4 * 4
  }

  /** x & 3, x & ~3 and x | 3 on a non-negative C int, by their arithmetic meaning. */
  function LowBits(x: nat): nat
  {
    x % 4
  }

  function ClearLowBits(x: nat): nat
  {
    x - x % 4
  }

  function SetLowBits(x: nat): nat
  {
    x - x % 4 + 3
  }

  /** The same three identities on a 32-bit word. */
  lemma BitwiseMeaning(v: bv32)
    ensures v & 3 <= 3
    ensures v & !3 == v - (v & 3)
    ensures v | 3 == (v & !3) + 3
  {
  }

  /** HPS SaveBitmapFile: if (x % 4 != 0) x = (x + 3) & ~3. */
  function HpsStride(x: nat): nat
  {
    if x % 4 != 0 then ClearLowBits(x + 3) else x
  }

  /** FPGA SaveBitmapFile: if (x & 3) { x |= 3; ++x; }. */
  function FpgaStride(x: nat): nat
  {
    if LowBits(x) != 0 then SetLowBits(x) + 1 else x
  }

  /** Both stride computations round the row length up to a multiple of 4. */
  lemma StridesRoundUp(x: nat)
    ensures HpsStride(x) == RoundUp4(x) && FpgaStride(x) == RoundUp4(x)
  {
  }

  /** ... and to the least such multiple. */
  lemma RoundUp4IsLeast(x: nat, m: nat)
    requires m % 4 == 0 && x <= m
    ensures RoundUp4(x) <= m
  {
  }

  // ---------------------------------------------------------------------
  // HPS SaveBitmapFile: padded rows, recomputed sizes

  function BytesPerPixel(ih: InfoHeader): nat
  {
    ih.biBitCount / 8
  }

  /** biWidth * (biBitCount / 8), for a non-negative width. */
  function RowLength(ih: InfoHeader): nat
    requires ih.biWidth >= 0
  {
    ih.biWidth * BytesPerPixel(ih)
  }

  /** Geometry for which the HPS save's int arithmetic does not overflow and
      the palette write stays inside the 1024-byte global. */
  predicate HpsSavable(ih: InfoHeader)
  {
    ih.biWidth >= 0 && ih.biHeight >= 0 && PaletteSize(ih) <= PALETTE_CAPACITY
    && RowLength(ih) + 3 < 0x8000_0000
    && HEADERS_SIZE + PaletteSize(ih) + RoundUp4(RowLength(ih)) * ih.biHeight < 0x8000_0000
  }

  /** The headers as the HPS save leaves them. */
  function HpsInfoHeader(ih: InfoHeader): (r: InfoHeader)
    requires HpsSavable(ih)
    ensures r.biSizeImage == RoundUp4(RowLength(ih)) * ih.biHeight
    ensures r == ih.(biSizeImage := r.biSizeImage)
  {
    ih.(biSizeImage := HpsStride(RowLength(ih)) * ih.biHeight)
  }

  function HpsFileHeader(ih: InfoHeader): (r: FileHeader)
    requires HpsSavable(ih)
    ensures r.bfType == BMP_MAGIC && r.bfReserved == 0 && r.bfReserved2 == 0
    ensures r.bfOffBits == HEADERS_SIZE + PaletteSize(ih)
    ensures r.bfSize == r.bfOffBits + HpsInfoHeader(ih).biSizeImage
  {
    var imageSize := HpsStride(RowLength(ih)) * ih.biHeight;
    FileHeader(BMP_MAGIC, HEADERS_SIZE + PaletteSize(ih) + imageSize, 0, 0, HEADERS_SIZE + PaletteSize(ih))
  }

  function Zeros(n: nat): (r: seq<byte>)
    ensures |r| == n && forall i :: 0 <= i < n ==> r[i] == 0
  {
    seq(n, _ => 0)
  }

  /** Row y of an unpadded image: bytes y*rowLength .. (y+1)*rowLength. */
  function RowBytes(data: seq<byte>, y: nat, rowLength: nat): seq<byte>
    requires Times(y + 1, rowLength) <= |data|
  {
    data[Times(y, rowLength)..Times(y, rowLength) + rowLength]
  }

  /** biHeight * RowLength: the bytes of an unpadded image, also in the
      running-sum form the row loops use. */
  function UnpaddedSize(ih: InfoHeader): (r: nat)
    requires ih.biWidth >= 0 && ih.biHeight >= 0
    ensures r == ih.biHeight * RowLength(ih) && r == Times(ih.biHeight, RowLength(ih))
  {
    TimesIsProduct(ih.biHeight, RowLength(ih));
    ih.biHeight * RowLength(ih)
  }

  /** The first `rows` rows, each followed by stride - rowLength zero bytes. */
  function PaddedRows(data: seq<byte>, rowLength: nat, stride: nat, rows: nat): (r: seq<byte>)
    requires rowLength <= stride && Times(rows, rowLength) <= |data|
  {
    if rows == 0 then []
    else
      PaddedRows(data, rowLength, stride, rows - 1) + RowBytes(data, rows - 1, rowLength) + Zeros(stride - rowLength)
  }

  /** Every padded row is `stride` bytes long. */
  lemma {:induction false} PaddedRowsLength(data: seq<byte>, rowLength: nat, stride: nat, rows: nat)
    requires rowLength <= stride && Times(rows, rowLength) <= |data|
    ensures |PaddedRows(data, rowLength, stride, rows)| == Times(rows, stride)
  {
    if rows > 0 {
      PaddedRowsLength(data, rowLength, stride, rows - 1);
    }
  }

  lemma PaddedLength(data: seq<byte>, rowLength: nat, stride: nat, rows: nat)
    requires rowLength <= stride && Times(rows, rowLength) <= |data|
    ensures |PaddedRows(data, rowLength, stride, rows)| == stride * rows
  {
    PaddedRowsLength(data, rowLength, stride, rows);
    TimesIsProduct(rows, stride);
  }

  /** Without padding the rows are the data itself. */
  lemma {:induction false} UnpaddedRows(data: seq<byte>, rowLength: nat, rows: nat)
    requires Times(rows, rowLength) <= |data|
    ensures PaddedRows(data, rowLength, rowLength, rows) == data[..Times(rows, rowLength)]
  {
    if rows > 0 {
      UnpaddedRows(data, rowLength, rows - 1);
    }
  }

  /** The palette section: written only when biClrUsed > 0. */
  function PaletteSection(palette: seq<byte>, ih: InfoHeader): seq<byte>
    requires PaletteSize(ih) <= |palette|
  {
    if ih.biClrUsed > 0 then palette[..PaletteSize(ih)] else []
  }

  /** Headers and palette as the HPS save writes them. */
  function HpsPrologue(palette: seq<byte>, ih: InfoHeader): seq<byte>
    requires HpsSavable(ih) && PaletteSize(ih) <= |palette|
  {
    EncodeFileHeader(HpsFileHeader(ih)) + EncodeInfoHeader(HpsInfoHeader(ih)) + PaletteSection(palette, ih)
  }

  /** The whole file the HPS save writes. */
  function HpsFileBytes(palette: seq<byte>, ih: InfoHeader, data: seq<byte>): seq<byte>
    requires HpsSavable(ih) && PaletteSize(ih) <= |palette|
    requires UnpaddedSize(ih) <= |data|
  {
    HpsPrologue(palette, ih) + PaddedRows(data, RowLength(ih), HpsStride(RowLength(ih)), ih.biHeight)
  }

  /** The HPS file is its prologue followed by the padded rows. */
  lemma HpsFileBytesSplit(palette: seq<byte>, ih: InfoHeader, data: seq<byte>, prologue: seq<byte>, rows: seq<byte>)
    requires HpsSavable(ih) && PaletteSize(ih) <= |palette|
    requires UnpaddedSize(ih) <= |data|
    requires prologue == HpsPrologue(palette, ih)
    requires rows == PaddedRows(data, RowLength(ih), HpsStride(RowLength(ih)), ih.biHeight)
    ensures prologue + rows == HpsFileBytes(palette, ih, data)
  {
  }

  /** A line buffer holding row y followed by zeros extends the padded rows by one. */
  lemma LineComplete(line: seq<byte>, data: seq<byte>, y: nat, rowLength: nat, stride: nat)
    requires rowLength <= stride == |line| && Times(y + 1, rowLength) <= |data|
    requires forall q :: 0 <= q < rowLength ==> line[q] == data[Times(y, rowLength) + q]
    requires forall q :: rowLength <= q < stride ==> line[q] == 0
    ensures PaddedRows(data, rowLength, stride, y + 1) == PaddedRows(data, rowLength, stride, y) + line
  {
    assert line == RowBytes(data, y, rowLength) + Zeros(stride - rowLength);
  }

  /** srcIndex = y*width*bytesPerPixel + x*bytesPerPixel + b and
      destIndex = x*bytesPerPixel + b, as the copy loop computes them. */
  method CopyIndices(y: int, x: int, b: int, width: int, bytesPerPixel: int, ghost base: int, ghost filled: int)
    returns (srcIndex: int, destIndex: int)
    requires width >= 0 && bytesPerPixel >= 0 && y >= 0 && x >= 0
    requires base == Times(y, width * bytesPerPixel) && filled == Times(x, bytesPerPixel)
    ensures srcIndex == base + filled + b && destIndex == filled + b
  {
    TimesIsProduct(y, width * bytesPerPixel);
    TimesIsProduct(x, bytesPerPixel);
    OffsetAsWritten(y, x, b, width, bytesPerPixel);
    srcIndex := y * width * bytesPerPixel + x * bytesPerPixel + b;
    destIndex := x * bytesPerPixel + b;
  }

  /** The x and b loops of the HPS SaveBitmapFile: copy row y of the image
      into the front of the line buffer, leaving its padding alone. */
  method CopyRow(bitmapData: array<byte>, lineBuffer: array<byte>, y: nat, width: nat, bytesPerPixel: nat,
                 ghost base: nat)
    requires lineBuffer != bitmapData && width * bytesPerPixel <= lineBuffer.Length
    requires base == Times(y, width * bytesPerPixel) && base + width * bytesPerPixel <= bitmapData.Length
    modifies lineBuffer
    ensures forall q :: 0 <= q < width * bytesPerPixel ==> lineBuffer[q] == bitmapData[base + q]
    ensures forall q :: width * bytesPerPixel <= q < lineBuffer.Length ==> lineBuffer[q] == old(lineBuffer[q])
  {
    ghost var rowLength := width * bytesPerPixel;
    assert Times(width, bytesPerPixel) == rowLength by {
      TimesIsProduct(width, bytesPerPixel);
    }
    ghost var filled := 0;
    var x := 0;
    while x < width
      invariant 0 <= x <= width && filled == Times(x, bytesPerPixel) && filled <= rowLength
      invariant forall q :: 0 <= q < filled ==> lineBuffer[q] == bitmapData[base + q]
      invariant forall q :: rowLength <= q < lineBuffer.Length ==> lineBuffer[q] == old(lineBuffer[q])
    {
      TimesMonotone(x + 1, width, bytesPerPixel);
      var b := 0;
      while b < bytesPerPixel
        invariant 0 <= b <= bytesPerPixel
        invariant forall q :: 0 <= q < filled + b ==> lineBuffer[q] == bitmapData[base + q]
        invariant forall q :: rowLength <= q < lineBuffer.Length ==> lineBuffer[q] == old(lineBuffer[q])
      {
        var srcIndex, destIndex := CopyIndices(y, x, b, width, bytesPerPixel, base, filled);
        lineBuffer[destIndex] := bitmapData[srcIndex];
        b := b + 1;
      }
      filled := filled + bytesPerPixel;
      x := x + 1;
    }
  }

  /** The row loop of the HPS SaveBitmapFile: for each row, copy its
      width*bytesPerPixel bytes into the zero-initialised line buffer and
      write the whole buffer, padding included. */
  method WriteRows(bitmapData: array<byte>, width: nat, height: nat, bytesPerPixel: nat,
                   bytesPerLine: nat, lineBuffer: array<byte>)
    returns (out: seq<byte>)
    requires lineBuffer != bitmapData && lineBuffer.Length == bytesPerLine
    requires width * bytesPerPixel <= bytesPerLine
    requires forall q :: 0 <= q < bytesPerLine ==> lineBuffer[q] == 0
    requires Times(height, width * bytesPerPixel) <= bitmapData.Length
    modifies lineBuffer
    ensures out == PaddedRows(bitmapData[..], width * bytesPerPixel, bytesPerLine, height)
  {
    ghost var data := bitmapData[..];
    ghost var rowLength := width * bytesPerPixel;
    out := [];
    ghost var base := 0;
    var y := 0;
    while y < height
      invariant 0 <= y <= height && base == Times(y, rowLength) && base <= Times(height, rowLength)
      invariant out == PaddedRows(data, rowLength, bytesPerLine, y)
      invariant forall q :: rowLength <= q < bytesPerLine ==> lineBuffer[q] == 0
    {
      TimesMonotone(y + 1, height, rowLength);
      CopyRow(bitmapData, lineBuffer, y, width, bytesPerPixel, base);
      LineComplete(lineBuffer[..], data, y, rowLength, bytesPerLine);
      out := out + lineBuffer[..];
      base := base + rowLength;
      y := y + 1;
    }
  }

  /** The image part of the HPS SaveBitmapFile: a zeroed line buffer of
      bytesPerLine bytes, then each row copied into it and written whole. */
  method WriteImage(bitmapData: array<byte>, ih: InfoHeader, bytesPerLine: nat) returns (rows: seq<byte>)
    requires HpsSavable(ih) && bytesPerLine == HpsStride(RowLength(ih))
    requires UnpaddedSize(ih) <= bitmapData.Length
    ensures rows == PaddedRows(bitmapData[..], RowLength(ih), HpsStride(RowLength(ih)), ih.biHeight)
  {
    StridesRoundUp(RowLength(ih));
    var lineBuffer := new byte[bytesPerLine](_ => 0);
    var bytesPerPixel := ih.biBitCount / 8;
    var width := ih.biWidth;
    var height := ih.biHeight;
    rows := WriteRows(bitmapData, width, height, bytesPerPixel, bytesPerLine, lineBuffer);
  }

  /** The size computations of the HPS SaveBitmapFile: the padded line
      length, and both headers as they are updated before fopen. */
  method HpsHeaders(infoHeader: InfoHeader) returns (bytesPerLine: nat, fh: FileHeader, ih: InfoHeader)
    requires HpsSavable(infoHeader)
    ensures bytesPerLine == RoundUp4(RowLength(infoHeader)) == HpsStride(RowLength(infoHeader))
    ensures fh == HpsFileHeader(infoHeader) && ih == HpsInfoHeader(infoHeader)
  {
    ih := infoHeader;
    bytesPerLine := ih.biWidth * (ih.biBitCount / 8);
    if bytesPerLine % 4 != 0 {
      bytesPerLine := ClearLowBits(bytesPerLine + 3);
    }
    assert bytesPerLine == HpsStride(RowLength(infoHeader));
    StridesRoundUp(RowLength(infoHeader));
    var headerSize := HEADERS_SIZE;
    var paletteSize := PaletteSize(ih);
    var imageSize := bytesPerLine * ih.biHeight;
    assert imageSize == HpsInfoHeader(infoHeader).biSizeImage;
    fh := FileHeader(BMP_MAGIC, headerSize + paletteSize + imageSize, 0, 0, headerSize + paletteSize);
    ih := ih.(biSizeImage := imageSize);
  }

  /** SaveBitmapFile of the HPS program. A None header, data or filename is a
      NULL argument; `opens` is whether fopen succeeds and `lineAllocates`
      whether calloc of the line buffer does. Returns both headers as the call
      leaves them and the bytes of the file it creates, if any. */
  method SaveBitmapFileHps(filename: Option<string>, bitmapData: array?<byte>,
                           infoHeader: Option<InfoHeader>, fileHeader: Option<FileHeader>,
                           palette: array<byte>, opens: bool, lineAllocates: bool)
    returns (newInfo: Option<InfoHeader>, newFile: Option<FileHeader>, written: Option<seq<byte>>)
    requires palette.Length == PALETTE_CAPACITY
    requires filename.Some? && bitmapData != null && infoHeader.Some? && fileHeader.Some? ==>
      HpsSavable(infoHeader.value)
      && UnpaddedSize(infoHeader.value) <= bitmapData.Length
    ensures filename.None? || bitmapData == null || infoHeader.None? || fileHeader.None? ==>
      newInfo == infoHeader && newFile == fileHeader && written.None?
    ensures filename.Some? && bitmapData != null && infoHeader.Some? && fileHeader.Some? ==>
      var ih := infoHeader.value;
      && newInfo == Some(HpsInfoHeader(ih))
      && newFile == Some(HpsFileHeader(ih))
      && written == (if !opens then None
                     else if !lineAllocates then Some(HpsPrologue(palette[..], ih))
                     else Some(HpsFileBytes(palette[..], ih, bitmapData[..])))
  {
    if filename.None? || bitmapData == null || infoHeader.None? || fileHeader.None? {
      return infoHeader, fileHeader, None;
    }
    var bytesPerLine, fh, ih := HpsHeaders(infoHeader.value);
    newInfo, newFile := Some(ih), Some(fh);
    if !opens {
      return newInfo, newFile, None;
    }
    var out := EncodeFileHeader(fh) + EncodeInfoHeader(ih);
    if ih.biClrUsed > 0 {
      out := out + palette[..PaletteSize(ih)];
    }
    ghost var pal := palette[..];
    ghost var data := bitmapData[..];
    assert out == HpsPrologue(pal, infoHeader.value);
    if !lineAllocates {
      return newInfo, newFile, Some(out);
    }
    var rows := WriteImage(bitmapData, infoHeader.value, bytesPerLine);
    HpsFileBytesSplit(pal, infoHeader.value, data, out, rows);
    written := Some(out + rows);
  }

  // ---------------------------------------------------------------------
  // Reading a saved file back

  /** Headers, palette and pixel bytes laid end to end, with the offset field
      pointing just past the palette, load back as those headers, that
      palette and the first biSizeImage pixel bytes. */
  lemma Reload(fh: FileHeader, ih: InfoHeader, pal: seq<byte>, pixels: seq<byte>)
    requires fh.bfType == BMP_MAGIC && fh.bfOffBits == HEADERS_SIZE + |pal|
    requires |pal| == PaletteSize(ih) <= PALETTE_CAPACITY && ih.biSizeImage <= |pixels|
    ensures var file := EncodeFileHeader(fh) + EncodeInfoHeader(ih) + pal + pixels;
      Loadable(file)
      && ParseBitmap(file) == Some(Bitmap(fh, ih, pal, pixels[..ih.biSizeImage]))
  {
    var hdr, info := EncodeFileHeader(fh), EncodeInfoHeader(ih);
    Regroup(hdr, info, pal, pixels);
    HeadersDecode(fh, ih, pal + pixels);
    ReloadParts(hdr + info, pal, pixels, fh, ih);
  }

  /** Reload with the header bytes left abstract. */
  lemma ReloadParts(headers: seq<byte>, pal: seq<byte>, pixels: seq<byte>, fh: FileHeader, ih: InfoHeader)
    requires |headers| == HEADERS_SIZE
    requires DecodeFileHeader(headers + pal + pixels, 0) == fh
    requires DecodeInfoHeader(headers + pal + pixels, FILE_HEADER_SIZE) == ih
    requires fh.bfType == BMP_MAGIC && fh.bfOffBits == HEADERS_SIZE + |pal|
    requires |pal| == PaletteSize(ih) <= PALETTE_CAPACITY && ih.biSizeImage <= |pixels|
    ensures Loadable(headers + pal + pixels)
    ensures ParseBitmap(headers + pal + pixels) == Some(Bitmap(fh, ih, pal, pixels[..ih.biSizeImage]))
  {
    ReloadSlices(headers, pal, pixels, ih.biSizeImage);
    ParseFields(headers + pal + pixels, fh, ih, pal, pixels[..ih.biSizeImage]);
  }

  /** Both headers decode from the front of what they were encoded into. */
  lemma HeadersDecode(fh: FileHeader, ih: InfoHeader, rest: seq<byte>)
    ensures |EncodeFileHeader(fh) + EncodeInfoHeader(ih) + rest| >= HEADERS_SIZE
    ensures DecodeFileHeader(EncodeFileHeader(fh) + EncodeInfoHeader(ih) + rest, 0) == fh
    ensures DecodeInfoHeader(EncodeFileHeader(fh) + EncodeInfoHeader(ih) + rest, FILE_HEADER_SIZE) == ih
  {
    var hdr, info := EncodeFileHeader(fh), EncodeInfoHeader(ih);
    FileHeaderRoundTrip([], fh, info + rest);
    assert [] + hdr + (info + rest) == hdr + info + rest;
    InfoHeaderRoundTrip(hdr, ih, rest);
  }

  /** ParseBitmap in terms of the fields it decodes. */
  lemma ParseFields(file: seq<byte>, fh: FileHeader, ih: InfoHeader, pal: seq<byte>, pixels: seq<byte>)
    requires |file| >= HEADERS_SIZE + |pal| + |pixels|
    requires DecodeFileHeader(file, 0) == fh && DecodeInfoHeader(file, FILE_HEADER_SIZE) == ih
    requires fh.bfType == BMP_MAGIC && fh.bfOffBits == HEADERS_SIZE + |pal|
    requires |pal| == PaletteSize(ih) <= PALETTE_CAPACITY && ih.biSizeImage == |pixels|
    requires file[HEADERS_SIZE..HEADERS_SIZE + |pal|] == pal
    requires file[fh.bfOffBits..fh.bfOffBits + ih.biSizeImage] == pixels
    ensures Loadable(file) && ParseBitmap(file) == Some(Bitmap(fh, ih, pal, pixels))
  {
    assert ReadDword(file, FILE_HEADER_SIZE + 32) == ih.biClrUsed;
    assert ReadDword(file, 10) == fh.bfOffBits && ReadDword(file, FILE_HEADER_SIZE + 20) == ih.biSizeImage;
    assert PaletteRead(file, ih) == pal;
  }

  /** Where the palette and the pixel bytes sit in a saved file. */
  lemma ReloadSlices(headers: seq<byte>, pal: seq<byte>, pixels: seq<byte>, k: nat)
    requires |headers| == HEADERS_SIZE && k <= |pixels|
    ensures |headers + pal + pixels| >= HEADERS_SIZE + |pal| + k
    ensures (headers + pal + pixels)[HEADERS_SIZE..HEADERS_SIZE + |pal|] == pal
    ensures (headers + pal + pixels)[HEADERS_SIZE + |pal|..HEADERS_SIZE + |pal| + k] == pixels[..k]
  {
    Segment(headers, pal, pixels, |pal|);
    Segment(headers + pal, pixels, [], k);
    assert headers + pal + pixels + [] == headers + pal + pixels;
  }

  /** Re-bracketing the four parts of a saved file. */
  lemma Regroup(a: seq<byte>, b: seq<byte>, c: seq<byte>, d: seq<byte>)
    ensures a + b + c + d == [] + a + (b + c + d) == a + b + (c + d)
  {
  }

  /** The k bytes after a prefix are the front of what follows it. */
  lemma Segment(prefix: seq<byte>, part: seq<byte>, rest: seq<byte>, k: nat)
    requires k <= |part|
    ensures (prefix + part + rest)[|prefix|..|prefix| + k] == part[..k]
  {
    assert prefix + part + rest == prefix + (part + rest);
  }

  /** The HPS file is exactly bfSize bytes long. */
  lemma HpsFileLength(palette: seq<byte>, ih: InfoHeader, data: seq<byte>)
    requires HpsSavable(ih) && PaletteSize(ih) <= |palette| && UnpaddedSize(ih) <= |data|
    ensures |HpsFileBytes(palette, ih, data)| == HpsFileHeader(ih).bfSize
  {
    var stride := HpsStride(RowLength(ih));
    var rows := PaddedRows(data, RowLength(ih), stride, ih.biHeight);
    PaddedRowsSize(data, ih);
    assert |PaletteSection(palette, ih)| == PaletteSize(ih);
    assert |HpsPrologue(palette, ih)| == HEADERS_SIZE + PaletteSize(ih);
    assert HpsFileBytes(palette, ih, data) == HpsPrologue(palette, ih) + rows;
  }

  /** The padded rows of the HPS save fill exactly biSizeImage bytes. */
  lemma PaddedRowsSize(data: seq<byte>, ih: InfoHeader)
    requires HpsSavable(ih) && UnpaddedSize(ih) <= |data|
    ensures HpsStride(RowLength(ih)) == RoundUp4(RowLength(ih)) >= RowLength(ih)
    ensures |PaddedRows(data, RowLength(ih), HpsStride(RowLength(ih)), ih.biHeight)| == HpsInfoHeader(ih).biSizeImage
  {
    var rowLength := RowLength(ih);
    var stride := HpsStride(rowLength);
    StridesRoundUp(rowLength);
    PaddedLength(data, rowLength, stride, ih.biHeight);
    assert HpsInfoHeader(ih).biSizeImage == stride * ih.biHeight;
  }

  /** Loading what the HPS save wrote gives back its headers, the palette and
      the padded rows. */
  lemma HpsSaveReloads(palette: seq<byte>, ih: InfoHeader, data: seq<byte>)
    requires HpsSavable(ih) && PaletteSize(ih) <= |palette| && UnpaddedSize(ih) <= |data|
    ensures Loadable(HpsFileBytes(palette, ih, data))
    ensures ParseBitmap(HpsFileBytes(palette, ih, data))
      == Some(Bitmap(HpsFileHeader(ih), HpsInfoHeader(ih), palette[..PaletteSize(ih)],
                     PaddedRows(data, RowLength(ih), HpsStride(RowLength(ih)), ih.biHeight)))
  {
    var rows := PaddedRows(data, RowLength(ih), HpsStride(RowLength(ih)), ih.biHeight);
    HpsFileParts(palette, ih, data);
    PaddedRowsSize(data, ih);
    Reload(HpsFileHeader(ih), HpsInfoHeader(ih), palette[..PaletteSize(ih)], rows);
    assert rows[..HpsInfoHeader(ih).biSizeImage] == rows;
  }

  /** The four parts of the HPS file. */
  lemma HpsFileParts(palette: seq<byte>, ih: InfoHeader, data: seq<byte>)
    requires HpsSavable(ih) && PaletteSize(ih) <= |palette| && UnpaddedSize(ih) <= |data|
    ensures HpsFileBytes(palette, ih, data)
      == EncodeFileHeader(HpsFileHeader(ih)) + EncodeInfoHeader(HpsInfoHeader(ih)) + palette[..PaletteSize(ih)]
         + PaddedRows(data, RowLength(ih), HpsStride(RowLength(ih)), ih.biHeight)
  {
    assert PaletteSection(palette, ih) == palette[..PaletteSize(ih)];
  }

  /** When a row is already a multiple of four bytes, the HPS save writes the
      image bytes unchanged, so a load-save-load cycle keeps every pixel. */
  lemma HpsSaveKeepsAlignedPixels(palette: seq<byte>, ih: InfoHeader, data: seq<byte>)
    requires HpsSavable(ih) && PaletteSize(ih) <= |palette| && UnpaddedSize(ih) <= |data|
    requires RowLength(ih) % 4 == 0
    ensures Loadable(HpsFileBytes(palette, ih, data))
    ensures ParseBitmap(HpsFileBytes(palette, ih, data)).Some?
    ensures ParseBitmap(HpsFileBytes(palette, ih, data)).value.pixels == data[..UnpaddedSize(ih)]
  {
    HpsSaveReloads(palette, ih, data);
    UnpaddedRows(data, RowLength(ih), ih.biHeight);
  }

  // ---------------------------------------------------------------------
  // FPGA SaveBitmapFile: headers patched, palette and image streamed line by line

  /** Number of iterations of for (i = 0; i <= biHeight - 1; i++). */
  function Rows(ih: InfoHeader): nat
  {
    if ih.biHeight < 0 then 0 else ih.biHeight
  }

  /** Geometry for which the FPGA save's int and long arithmetic does not
      overflow: the row length and its rounding, the discarded
      (long)bytesperline * biHeight, and the running source index n. */
  predicate FpgaSavable(ih: InfoHeader)
  {
    ih.biWidth >= 0 && RowLength(ih) + 3 < 0x8000_0000
    && -0x8000_0000 <= RoundUp4(RowLength(ih)) * ih.biHeight < 0x8000_0000
    && BytesPerPixel(ih) * Rows(ih) * RoundUp4(RowLength(ih)) < 0x8000_0000
  }

  /** The bytes the three nested loops copy: bytesPerPixel passes over
      Rows lines of the padded line length, kept in the running-sum form
      the loops use. */
  function FpgaImageSize(ih: InfoHeader): nat
    requires ih.biWidth >= 0
  {
    Times(Times(BytesPerPixel(ih), Rows(ih)), RoundUp4(RowLength(ih)))
  }

  /** FpgaImageSize is bytesPerPixel * Rows * the padded line length. */
  lemma FpgaImageSizeIsProduct(ih: InfoHeader)
    requires ih.biWidth >= 0
    ensures FpgaImageSize(ih) == BytesPerPixel(ih) * Rows(ih) * RoundUp4(RowLength(ih))
  {
    TimesIsProduct(BytesPerPixel(ih), Rows(ih));
    TimesIsProduct(BytesPerPixel(ih) * Rows(ih), RoundUp4(RowLength(ih)));
  }

  /** The file header as the FPGA save leaves it: the DWORD fields bfSize and
      bfOffBits recomputed in unsigned 32-bit arithmetic, everything else
      (bfType included) as the caller passed it. */
  function FpgaFileHeader(fh: FileHeader, ih: InfoHeader): FileHeader
  {
    fh.(bfSize := (HEADERS_SIZE + ih.biSizeImage) % 0x1_0000_0000,
        bfOffBits := (HEADERS_SIZE + PaletteSize(ih)) % 0x1_0000_0000)
  }

  /** The whole file the FPGA save writes. */
  function FpgaFileBytes(fh: FileHeader, ih: InfoHeader, palette: seq<byte>, data: seq<byte>): seq<byte>
    requires ih.biWidth >= 0 && PaletteSize(ih) <= |palette| && FpgaImageSize(ih) <= |data|
  {
    EncodeFileHeader(FpgaFileHeader(fh, ih)) + EncodeInfoHeader(ih)
      + palette[..PaletteSize(ih)] + data[..FpgaImageSize(ih)]
  }

  /** The patched header describes the file: bfOffBits is where the pixel
      bytes start. bfSize counts the headers and biSizeImage but not the
      palette, so when biSizeImage is the number of pixel bytes written it
      is the file length exactly when there is no palette. */
  lemma FpgaHeaderDescribesFile(fh: FileHeader, ih: InfoHeader, palette: seq<byte>, data: seq<byte>)
    requires ih.biWidth >= 0 && PaletteSize(ih) <= PALETTE_CAPACITY <= |palette| && FpgaImageSize(ih) <= |data|
    requires HEADERS_SIZE + ih.biSizeImage < 0x1_0000_0000
    ensures var file := FpgaFileBytes(fh, ih, palette, data);
      FpgaFileHeader(fh, ih).bfOffBits + FpgaImageSize(ih) == |file|
      && (ih.biSizeImage == FpgaImageSize(ih) ==>
            FpgaFileHeader(fh, ih).bfSize + PaletteSize(ih) == |file|
            && (FpgaFileHeader(fh, ih).bfSize == |file| <==> ih.biClrUsed == 0))
  {
    FpgaFileLength(fh, ih, palette, data);
    FpgaHeaderFields(fh, ih);
  }

  lemma FpgaFileLength(fh: FileHeader, ih: InfoHeader, palette: seq<byte>, data: seq<byte>)
    requires ih.biWidth >= 0 && PaletteSize(ih) <= |palette| && FpgaImageSize(ih) <= |data|
    ensures |FpgaFileBytes(fh, ih, palette, data)| == HEADERS_SIZE + PaletteSize(ih) + FpgaImageSize(ih)
  {
  }

  lemma FpgaHeaderFields(fh: FileHeader, ih: InfoHeader)
    requires PaletteSize(ih) <= PALETTE_CAPACITY && HEADERS_SIZE + ih.biSizeImage < 0x1_0000_0000
    ensures FpgaFileHeader(fh, ih).bfOffBits == HEADERS_SIZE + PaletteSize(ih)
    ensures FpgaFileHeader(fh, ih).bfSize == HEADERS_SIZE + ih.biSizeImage
  {
  }

  /** Loading what the FPGA save wrote gives back the patched headers, the
      palette and the first biSizeImage bytes of the image buffer, provided
      the header passed in carried the BM magic and biSizeImage does not
      exceed what the loops wrote. */
  lemma FpgaSaveReloads(fh: FileHeader, ih: InfoHeader, palette: seq<byte>, data: seq<byte>)
    requires ih.biWidth >= 0 && PaletteSize(ih) <= PALETTE_CAPACITY <= |palette| && FpgaImageSize(ih) <= |data|
    requires fh.bfType == BMP_MAGIC && ih.biSizeImage <= FpgaImageSize(ih)
    ensures Loadable(FpgaFileBytes(fh, ih, palette, data))
    ensures ParseBitmap(FpgaFileBytes(fh, ih, palette, data))
      == Some(Bitmap(FpgaFileHeader(fh, ih), ih, palette[..PaletteSize(ih)], data[..ih.biSizeImage]))
  {
    var pixels := data[..FpgaImageSize(ih)];
    Reload(FpgaFileHeader(fh, ih), ih, palette[..PaletteSize(ih)], pixels);
    assert pixels[..ih.biSizeImage] == data[..ih.biSizeImage];
  }

  /** The j loop: tk[j] = bitmapData[n++] for every j of the line. */
  method CopyLine(bitmapData: array<byte>, tk: array<byte>, n: nat) returns (next: nat)
    requires tk != bitmapData && n + tk.Length <= bitmapData.Length
    modifies tk
    ensures next == n + tk.Length && tk[..] == bitmapData[n..next]
  {
    next := n;
    var j := 0;
    while j <= tk.Length - 1
      invariant 0 <= j <= tk.Length && next == n + j
      invariant forall q :: 0 <= q < j ==> tk[q] == bitmapData[n + q]
    {
      tk[j] := bitmapData[next];
      next := next + 1;
      j := j + 1;
    }
    assert tk[..] == bitmapData[n..next];
  }

  /** The x and i loops: bytesPerPixel passes, each writing `height` lines
      of tk.Length consecutive bytes taken from the image buffer. */
  method WriteFpgaImage(bitmapData: array<byte>, bytesPerPixel: nat, height: int, tk: array<byte>)
    returns (out: seq<byte>)
    requires tk != bitmapData
    requires Times(Times(bytesPerPixel, if height < 0 then 0 else height), tk.Length) <= bitmapData.Length
    modifies tk
    ensures out == bitmapData[..Times(Times(bytesPerPixel, if height < 0 then 0 else height), tk.Length)]
  {
    ghost var rows: nat := if height < 0 then 0 else height;
    ghost var lines := Times(bytesPerPixel, rows);
    ghost var data := bitmapData[..];
    out := [];
    var n := 0;
    var x := 0;
    while x < bytesPerPixel
      invariant 0 <= x <= bytesPerPixel && n == Times(Times(x, rows), tk.Length)
      invariant Times(x, rows) <= lines && n <= |data| && out == data[..n]
      invariant bitmapData[..] == data
    {
      TimesMonotone(x + 1, bytesPerPixel, rows);
      var i := 0;
      while i <= height - 1
        invariant 0 <= i <= rows && n == Times(Times(x, rows) + i, tk.Length)
        invariant Times(x, rows) + i <= lines && n <= |data| && out == data[..n]
        invariant bitmapData[..] == data
      {
        TimesMonotone(Times(x, rows) + i + 1, lines, tk.Length);
        ghost var start := n;
        n := CopyLine(bitmapData, tk, n);
        assert data[..n] == data[..start] + tk[..];
        out := out + tk[..];
        i := i + 1;
      }
      x := x + 1;
    }
  }

  /** SaveBitmapFile of the FPGA program. `dirCreated` is whether
      createDirectory("output") succeeds and `opens` whether fopen does.
      Returns the file header as the call leaves it and the bytes of the
      file it creates, if any; the info header is not modified. */
  method SaveBitmapFileFpga(bitmapData: array<byte>, infoHeader: InfoHeader, fileHeader: FileHeader,
                            palette: array<byte>, dirCreated: bool, opens: bool)
    returns (newFile: FileHeader, written: Option<seq<byte>>)
    requires palette.Length == PALETTE_CAPACITY && palette != bitmapData
    requires dirCreated ==> FpgaSavable(infoHeader)
    requires dirCreated && opens ==>
      PaletteSize(infoHeader) <= PALETTE_CAPACITY && FpgaImageSize(infoHeader) <= bitmapData.Length
    ensures !dirCreated ==> newFile == fileHeader && written.None?
    ensures dirCreated ==> newFile == FpgaFileHeader(fileHeader, infoHeader)
    ensures dirCreated ==>
      written == (if opens then Some(FpgaFileBytes(fileHeader, infoHeader, palette[..], bitmapData[..])) else None)
  {
    var k, l := FILE_HEADER_SIZE, INFO_HEADER_SIZE;
    if !dirCreated {
      return fileHeader, None;
    }
    var bytesPerLine := infoHeader.biWidth * (infoHeader.biBitCount / 8);
    if LowBits(bytesPerLine) != 0 {
      bytesPerLine := SetLowBits(bytesPerLine);
      bytesPerLine := bytesPerLine + 1;
    }
    StridesRoundUp(RowLength(infoHeader));
    assert bytesPerLine == RoundUp4(RowLength(infoHeader));
    var bytesPerPixel := infoHeader.biBitCount / 8;
    var tk := new byte[bytesPerLine](_ => 0);
    newFile := fileHeader.(bfOffBits := (k + l + PaletteSize(infoHeader)) % 0x1_0000_0000);
    newFile := newFile.(bfSize := (k + l + infoHeader.biSizeImage) % 0x1_0000_0000);
    if !opens {
      return newFile, None;
    }
    var out := EncodeFileHeader(newFile) + EncodeInfoHeader(infoHeader) + palette[..PaletteSize(infoHeader)];
    var image := WriteFpgaImage(bitmapData, bytesPerPixel, infoHeader.biHeight, tk);
    written := Some(out + image);
  }
}
