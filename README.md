# EdgeVision in Dafny

EdgeVision is a Sobel edge detector for uncompressed Windows BMP images that
comes in two programs:

- The software-only program (`EdgeVision_HPS`) loads each image and runs a
  3x3 Sobel filter on the processor. It saves the result with padded rows and
  recomputed headers.
- The accelerated program (`EdgeVision_HPS_FPGA/SW`) streams the image to an
  FPGA through the lightweight HPS-to-FPGA bridge of a DE1-SoC board. For
  every channel, row and column it sends one 32-bit word packing a vertical
  window of three samples. It reads back one filtered byte and stores it.

This project models the part of both programs that has real invariants:

- the packed 14 + 40 byte BMP headers and their little-endian fields;
- `LoadBitmapFile` and the two different `SaveBitmapFile` variants;
- the software `Sobel` engine;
- `prepareDataforTx` and the streaming loop of the accelerated `main`;
- the bridge driver (`configure_fpga`, `write_to_fpga`, `read_from_fpga`,
  `cleanup_fpga`);
- both `main`s: the argument check, the output-name derivation, and the
  order in which a run loads, filters, saves, aborts and cleans up.

The C code is imperative, and so is the model:

- `Sobel`, both saves, `prepareDataforTx` and the streaming loop are methods
  over `array`s. Their loops carry invariants, and each method is proved
  against a pure specification function (`SobelImage`, `HpsFileBytes`,
  `FpgaFileBytes`, `Pack`, and for the streaming loop `Scatter` of the
  loop's answers over its stores, with the `Exchanges` of its words).
- The driver's four globals are the fields of class
  `FpgaDriver.FpgaBridge`. The class also keeps every word the accelerator
  has received, and records every register access and system call in
  ghost traces.
- Each `main` is a method over a global palette array. It is proved equal to
  a function (`Program`) that describes the whole run as an exit code plus
  an ordered list of effects.

Modules, one file each:

| file | module | models |
|---|---|---|
| byte.dfy | `Bytes` | `unsigned char` as a `byte` newtype |
| option.dfy | `Optional` | Option |
| bmp_layout.dfy | `BmpLayout` | `EdgeVision.h`: typedefs, packed headers, constants |
| pixel_layout.dfy | `PixelLayout` | the flat index `row*w*bpp + col*bpp + ch` and its decoding |
| command_line.dfy | `CommandLine` | the argument check, basename and output name of both `main`s |
| bitmap_codec.dfy | `BitmapCodec` | `LoadBitmapFile`, both `SaveBitmapFile`s |
| sobel.dfy | `SobelEngine` | `Sobel` |
| packing.dfy | `WindowPacking` | `prepareDataforTx` |
| fpga_driver.dfy | `FpgaDriver` | `DESoC1Drivers.c` |
| streaming.dfy | `FpgaStreaming` | the k/i/j loop of the accelerated `main` |
| hps_program.dfy | `HpsProgram` | `main` of the software-only program |
| fpga_program.dfy | `FpgaProgram` | `main` of the accelerated program |

How the outside world enters the model:

- A file is its byte content.
- Whatever the operating system answers is a parameter:
  - the outcome of `fopen`, `malloc`/`calloc`, `createDirectory`, `open` and
    `mmap`;
  - for each iteration of a `main`, an `ImageWorld` value holding the input
    file and those outcomes.
- The accelerator is a function `accelerator: seq<Dword> -> byte`. It gives
  the byte on the output register once the accelerator has received the
  given words, in order, so it may combine a word with earlier ones.

## Model

| member | source | states |
|---|---|---|
| BmpLayout.RegistersInsideBridge | EdgeVision_HPS_FPGA/SW/EdgeVision.h:60-64 | the 4-byte input register at 0x50000 and the 1-byte output register at 0x40000 lie inside the 0x200000-byte bridge span and do not overlap |
| BmpLayout.WordRoundTrip | EdgeVision_HPS_FPGA/SW/EdgeVision.h:25 | a WORD written as 2 little-endian bytes anywhere in a byte string reads back as itself |
| BmpLayout.DwordRoundTrip | EdgeVision_HPS_FPGA/SW/EdgeVision.h:26 | a DWORD written as 4 little-endian bytes reads back as itself |
| BmpLayout.LongRoundTrip | EdgeVision_HPS_FPGA/SW/EdgeVision.h:24 | a signed 32-bit LONG written in two's complement reads back as itself, negative values included |
| BmpLayout.MagicIsBM | EdgeVision_HPS/EdgeVision.c:88-92 | the magic test `bfType == 0x4D42` holds exactly when the file starts with the characters 'B','M' |
| BmpLayout.FileHeaderRoundTrip | EdgeVision_HPS_FPGA/SW/EdgeVision.h:29-38 | the packed 14-byte file header decodes back to every field, wherever it sits in a file |
| BmpLayout.InfoHeaderRoundTrip | EdgeVision_HPS_FPGA/SW/EdgeVision.h:40-54 | the packed 40-byte info header decodes back to all eleven fields, at their offsets 0..36 |
| PixelLayout.DecodedOffset | EdgeVision_HPS/EdgeVision.c:37 | every flat index is `row*w*bpp + col*bpp + ch` for the row, column and channel it decodes to, with column and channel in range |
| PixelLayout.OffsetDecodes | EdgeVision_HPS/EdgeVision.c:37 | the other direction: an in-range (row, col, ch) encodes to an index that decodes back to it |
| PixelLayout.OffsetInImage | EdgeVision_HPS/EdgeVision.c:46 | an in-range column and channel give an index inside the `h*w*bpp` buffer exactly when the row is in `[0, h)` |
| CommandLine.LastSlash | EdgeVision_HPS/main.c:63 | `strrchr(path, '/')`: the index found holds a slash with none after it, and None means the path has no slash |
| CommandLine.BasenameSplitsPath | EdgeVision_HPS/main.c:62-66 | the basename has no slash, and the path is an empty directory part or one ending in '/' followed by the basename |
| CommandLine.PrecisionOf | EdgeVision_HPS/main.c:70 | `(int)(baseNameLen - 4)` is `len - 4` for every length below 2^31; below 4 the size_t subtraction wraps around to a negative int |
| CommandLine.PrintedWithPrecision | EdgeVision_HPS/main.c:69 | `%.*s` prints a prefix of the string: the first p characters for a precision p in `[0, len)`, and the whole string for a negative precision or one at or above its length |
| CommandLine.StemDropsExtension | EdgeVision_HPS/main.c:69-70 | a basename of at least 4 characters is the stem followed by its last four characters; a shorter one is printed whole |
| CommandLine.OutputNameShape | EdgeVision_HPS_FPGA/SW/main.c:57-70 | the name is `output/` + basename minus its last four characters + the program's suffix, with no slash after `output/`; it always fits the `baseNameLen + 30` buffer with its NUL, so the "too long" branch is never taken |
| CommandLine.NameAlwaysFits | EdgeVision_HPS/main.c:68-74 | for any path and a suffix of at most 22 characters, `snprintf` never reports truncation |
| CommandLine.OutputNameIgnoresDirectory | EdgeVision_HPS/main.c:62-69 | "dir/name" and "name" give the same output name |
| CommandLine.SavesOfAt | EdgeVision_HPS/main.c:45-108 | a list of saves has at most one save per input path, and save i is a SaveImage named after path i |
| BitmapCodec.PaletteRead | EdgeVision_HPS/EdgeVision.c:98 | the palette read is `biClrUsed*4` bytes long exactly when the file holds them all, and never longer |
| BitmapCodec.ParseBitmap | EdgeVision_HPS/EdgeVision.c:88-128 | a load succeeds exactly when the file starts with "BM"; it then returns `biSizeImage` pixel bytes and a palette within the 1024-byte global |
| BitmapCodec.LoadBitmapFile | EdgeVision_HPS/EdgeVision.c:68-141 | no file or a wrong magic returns NULL and leaves the palette alone; otherwise the palette bytes land at the front of the global palette with the rest unchanged, and the result is non-NULL exactly when malloc succeeds, holding both headers and the bytes from `bfOffBits` |
| BitmapCodec.RoundUp4 | EdgeVision_HPS/EdgeVision.c:152-155 | the stride is a multiple of 4 within 3 of the row length |
| BitmapCodec.StridesRoundUp | EdgeVision_HPS_FPGA/SW/EdgeVision.c:101-106 | the FPGA `|= 3; ++` stride and the HPS `(x+3) & ~3` stride are both RoundUp4 |
| BitmapCodec.RoundUp4IsLeast | EdgeVision_HPS/EdgeVision.c:152-155 | RoundUp4 is the least multiple of 4 at or above the row length |
| BitmapCodec.BitwiseMeaning | EdgeVision_HPS_FPGA/SW/EdgeVision.c:102-104 | on 32-bit words `& 3`, `& ~3` and `\| 3` mean what LowBits, ClearLowBits and SetLowBits compute |
| BitmapCodec.HpsInfoHeader | EdgeVision_HPS/EdgeVision.c:160-170 | the HPS save sets biSizeImage to stride*height and changes no other info-header field |
| BitmapCodec.HpsFileHeader | EdgeVision_HPS/EdgeVision.c:158-167 | bfType = 0x4D42, reserved fields 0, bfOffBits = 54 + 4*biClrUsed, bfSize = bfOffBits + stride*height |
| BitmapCodec.UnpaddedRows | EdgeVision_HPS/EdgeVision.c:211-222 | rows written with no padding are the pixel bytes unchanged |
| BitmapCodec.PaddedLength | EdgeVision_HPS/EdgeVision.c:211-222 | `height` rows of `stride` bytes are `stride*height` bytes long |
| BitmapCodec.WriteRows | EdgeVision_HPS/EdgeVision.c:211-222 | the row loop writes, row by row, the `w*bpp` pixel bytes of that row followed by zero padding up to the stride |
| BitmapCodec.SaveBitmapFileHps | EdgeVision_HPS/EdgeVision.c:143-227 | a NULL argument changes nothing and writes nothing; otherwise the headers are rewritten; a failed fopen writes nothing; a failed calloc leaves only headers and palette; else the file is headers, palette and padded rows |
| BitmapCodec.HpsFileLength | EdgeVision_HPS/EdgeVision.c:164 | the HPS file is exactly bfSize bytes long |
| BitmapCodec.HpsSaveReloads | EdgeVision_HPS/EdgeVision.c:143-227 | loading an HPS-saved file gives back the rewritten headers, the palette written and the padded rows |
| BitmapCodec.HpsSaveKeepsAlignedPixels | EdgeVision_HPS/EdgeVision.c:211-222 | when a row is a multiple of 4 bytes long, save followed by load returns the pixel bytes unchanged |
| BitmapCodec.FpgaImageSizeIsProduct | EdgeVision_HPS_FPGA/SW/EdgeVision.c:143-155 | the three FPGA save loops copy bpp * height * stride bytes |
| BitmapCodec.CopyLine | EdgeVision_HPS_FPGA/SW/EdgeVision.c:148-151 | `tk[j] = bitmapData[n++]` copies the next stride bytes in order and advances n past them |
| BitmapCodec.WriteFpgaImage | EdgeVision_HPS_FPGA/SW/EdgeVision.c:143-155 | the pixel section is exactly the first bpp*height*stride bytes of the buffer, in order |
| BitmapCodec.SaveBitmapFileFpga | EdgeVision_HPS_FPGA/SW/EdgeVision.c:89-158 | a failed createDirectory("output") changes nothing and writes nothing; otherwise bfSize and bfOffBits are patched; a failed fopen writes nothing; else the file is the headers, the 4*biClrUsed palette bytes and the pixel section |
| BitmapCodec.FpgaHeaderFields | EdgeVision_HPS_FPGA/SW/EdgeVision.c:114-116 | bfOffBits = 54 + 4*biClrUsed and bfSize = 54 + biSizeImage (line 116 overwrites line 114) |
| BitmapCodec.FpgaHeaderDescribesFile | EdgeVision_HPS_FPGA/SW/EdgeVision.c:114-155 | bfOffBits is where the pixel section starts; when biSizeImage counts the bytes written, bfSize falls short of the file length by the palette size, so it is correct exactly when biClrUsed is 0 |
| BitmapCodec.FpgaSaveReloads | EdgeVision_HPS_FPGA/SW/EdgeVision.c:89-158 | loading an FPGA-saved file gives back the patched header, the info header, the palette and the first biSizeImage bytes of the buffer |
| SobelEngine.Magnitude | EdgeVision_HPS/EdgeVision.c:54-55 | the magnitude lies in [0, 255]; it is exactly `\|sumX\| + \|sumY\|` when that is at most 255, and 255 otherwise |
| SobelEngine.KernelsBalanced | EdgeVision_HPS/EdgeVision.c:17-23 | the weights of Gx and Gy each sum to zero |
| SobelEngine.ConvolveConstant | EdgeVision_HPS/EdgeVision.c:39-50 | convolving a uniform neighbourhood scales the kernel's weight sum |
| SobelEngine.FlatFieldIsWhite | EdgeVision_HPS/EdgeVision.c:17-57 | an interior byte whose 3x3 same-channel neighbourhood is uniform filters to 255 |
| SobelEngine.FlatNeighbourhood | EdgeVision_HPS/EdgeVision.c:37-46 | for such a byte, all nine taps of its neighbourhood read the uniform value |
| SobelEngine.ConstantTapsWhite | EdgeVision_HPS/EdgeVision.c:17-57 | any constant 3x3 neighbourhood gives sumX = sumY = 0 and so the output byte 255 |
| SobelEngine.VerticalEdgeResponse | EdgeVision_HPS/EdgeVision.c:48-57 | a hard vertical edge gives sumX = -1020 and sumY = 0, so the output byte is 0 |
| SobelEngine.InteriorTapsInRange | EdgeVision_HPS/EdgeVision.c:43-46 | for an interior pixel every tap address is inside `[0, w*h*bpp)` and in the centre's channel, so the bounds check never drops a tap |
| SobelEngine.BorderIsZero | EdgeVision_HPS/EdgeVision.c:26-30 | rows 0 and h-1 and columns 0 and w-1 are 0 in every channel; an image narrower or lower than 3 pixels is all 0 |
| SobelEngine.KernelSums | EdgeVision_HPS/EdgeVision.c:34-52 | the tap loops accumulate exactly the bounds-checked Gx and Gy convolutions of the neighbourhood |
| SobelEngine.ClearOutput | EdgeVision_HPS/EdgeVision.c:26 | memset zeroes the first n bytes and leaves the rest |
| SobelEngine.Sobel | EdgeVision_HPS/EdgeVision.c:10-61 | a NULL pointer or a non-positive dimension leaves the output untouched; otherwise, for a w*h*bpp that fits in an `int`, the first w*h*bpp output bytes become SobelImage and the rest stay; the input is never written |
| WindowPacking.ShiftLeft8 | EdgeVision_HPS_FPGA/SW/EdgeVision.c:208 | `acc << 8` on a uint32_t leaves the low byte clear |
| WindowPacking.OrLowByte | EdgeVision_HPS_FPGA/SW/EdgeVision.c:209 | or-ing a byte into a clear low byte puts it there and keeps the upper bytes |
| WindowPacking.ShiftOrMeaning | EdgeVision_HPS_FPGA/SW/EdgeVision.c:208-209 | on 32-bit words the shift clears the low byte and the or adds the byte |
| WindowPacking.PrepareDataForTx | EdgeVision_HPS_FPGA/SW/EdgeVision.c:202-212 | the loop returns Pack of the first `size` bytes |
| WindowPacking.PackIsValueModulo | EdgeVision_HPS_FPGA/SW/EdgeVision.c:202-212 | the packed word is Σ data[i]·256^(n-1-i) mod 2^32 |
| WindowPacking.PackWindow | EdgeVision_HPS_FPGA/SW/EdgeVision.c:206-210 | for the 3-byte window the word is `(b0<<16)\|(b1<<8)\|b2`, below 2^24, and each byte comes back by shift and mask |
| WindowPacking.OnlyLastFourBytesMatter | EdgeVision_HPS_FPGA/SW/EdgeVision.c:205-209 | with four or more bytes only the last four affect the word, which is then their exact big-endian value |
| FpgaDriver.ConfigureOutcome | EdgeVision_HPS_FPGA/SW/DESoC1Drivers.c:13-34 | returns 0 exactly when open and mmap both succeed, with the registers at base+0x50000 and base+0x40000 inside the span; on failure the register pointers keep their values; a failed open leaves fd at -1; a failed mmap closes fd without resetting it and leaves MAP_FAILED |
| FpgaDriver.WriteReadGuards | EdgeVision_HPS_FPGA/SW/DESoC1Drivers.c:39-60 | a write changes only the input register and only when pixel_in_pio is set, and only then does the accelerator receive the word; a read returns 0 without pixel_out_pio; on a configured bridge a read after a write returns the accelerator's answer to all the words it has received, that word last |
| FpgaDriver.CleanupIdempotent | EdgeVision_HPS_FPGA/SW/DESoC1Drivers.c:65-74 | cleanup ends with lw_bridge_base NULL and fd -1, a second cleanup changes nothing and makes no call, and a MAP_FAILED base is munmap'd |
| FpgaDriver.CleanupKeepsRegisters | EdgeVision_HPS_FPGA/SW/DESoC1Drivers.c:65-74 | cleanup leaves both register pointers set, so on a configured bridge a write still reaches the accelerator and a read after it still returns the accelerator's answer |
| FpgaDriver.FpgaBridge.constructor | EdgeVision_HPS_FPGA/SW/DESoC1Drivers.c:4-7 | fd = -1, lw_bridge_base and both register pointers NULL, nothing received and empty traces |
| FpgaDriver.FpgaBridge.ConfigureFpga | EdgeVision_HPS_FPGA/SW/DESoC1Drivers.c:13-34 | the new globals are ConfigureState, the result is ConfigureStatus, and the calls are open, mmap and, after a failed mmap, close |
| FpgaDriver.FpgaBridge.WriteToFpga | EdgeVision_HPS_FPGA/SW/DESoC1Drivers.c:39-46 | the state becomes WriteState; only when pixel_in_pio is set does the accelerator receive the word and one write get traced |
| FpgaDriver.FpgaBridge.ReadFromFpga | EdgeVision_HPS_FPGA/SW/DESoC1Drivers.c:51-60 | returns ReadValue (the accelerator's answer to every word received so far, or 0 without pixel_out_pio), changes no global, and traces one read only when pixel_out_pio is set |
| FpgaDriver.FpgaBridge.CleanupFpga | EdgeVision_HPS_FPGA/SW/DESoC1Drivers.c:65-74 | the new globals are CleanupState, with munmap and close only for a set base and an open fd |
| FpgaStreaming.FirstRowWindowIsZero | EdgeVision_HPS_FPGA/SW/main.c:104-122 | in row 0 the previous index is negative, so the window is all zero |
| FpgaStreaming.WindowIsLocal | EdgeVision_HPS_FPGA/SW/main.c:104-114 | a window depends only on the three same-column bytes of rows i-1, i and i+1 |
| FpgaStreaming.BuildWindow | EdgeVision_HPS_FPGA/SW/main.c:104-124 | input_row becomes [i==0 ? 0 : data[prev], data[curr], i==ROWS-1 ? 0 : data[next]] when all three indices are in `[0, biSizeImage)`, and [0,0,0] otherwise |
| FpgaStreaming.StreamPixel | EdgeVision_HPS_FPGA/SW/main.c:104-129 | one iteration writes `prepareDataforTx` of the window it built, reads once, and stores the answer to every word received, this one last, at curr_index only |
| FpgaStreaming.ClearInputRow | EdgeVision_HPS_FPGA/SW/main.c:132-134 | input_row is zeroed after each channel |
| FpgaStreaming.LoopBounds | EdgeVision_HPS_FPGA/SW/main.c:99-101 | when positive, the loop bounds COLS and ROWS are width*bpp and height*bpp, and the column loop stepping by bpp covers width columns of bpp bytes; a bound that is not positive runs no iteration |
| FpgaStreaming.StreamImage | EdgeVision_HPS_FPGA/SW/main.c:83-135 | for ROWS, COLS and (ROWS+1)*COLS within an `int`, the buffer becomes the loop's answers scattered over its stores, in loop order; the accelerator receives exactly the loop's words; the accesses are their write/read exchanges; input_row ends zeroed; bitmapData and the globals other than the input register are unchanged |
| FpgaStreaming.ImageStoresExactlyOnce | EdgeVision_HPS_FPGA/SW/main.c:97-105 | the loop's curr_index values are ROWS*COLS indices, all different, all in `[0, ROWS*COLS)`, and every index of the buffer is among them: each byte is stored exactly once |
| FpgaStreaming.LoopOutcome | EdgeVision_HPS_FPGA/SW/main.c:97-135 | request t writes the loop's word t and reads back exactly the byte the loop leaves at store t; every store is inside the buffer; bytes past ROWS*COLS keep their values |
| FpgaStreaming.ScatteredAnswers | EdgeVision_HPS_FPGA/SW/main.c:97-129 | after the loop the byte at store t is the accelerator's answer once it has received the image's first t+1 words |
| FpgaStreaming.ScatterDistinct | EdgeVision_HPS_FPGA/SW/main.c:129 | when no index is stored twice, each store inside the buffer holds its own value at the end and an index never stored keeps its value |
| FpgaStreaming.ScatterCovers | EdgeVision_HPS_FPGA/SW/main.c:89-135 | distinct stores that cover the whole buffer overwrite all of it, so what the buffer held before does not matter |
| FpgaStreaming.ExchangesPaired | EdgeVision_HPS_FPGA/SW/main.c:125-128 | sending words gives a run of requests, each a write followed by one read of the answer to everything received, the word just written last, and the writes are exactly those words |
| FpgaStreaming.PairedIsExchanges | EdgeVision_HPS_FPGA/SW/main.c:125-128 | conversely, every such run of requests is the exchange of the words it writes |
| FpgaStreaming.ExchangeAt | EdgeVision_HPS_FPGA/SW/main.c:125-129 | request t writes word t and reads back answer t |
| FpgaStreaming.ImageCellsAt | EdgeVision_HPS_FPGA/SW/main.c:97-101 | iteration (k, i, x) of the three loops comes k*ROWS*width + i*width + x -th in loop order |
| FpgaStreaming.ImageScheduled | EdgeVision_HPS_FPGA/SW/main.c:97-125 | iteration (k, i, x) of the loop sends the packed window of row i and byte column x*bpp + k, and stores at i*COLS + x*bpp + k |
| FpgaStreaming.ProgressIs | EdgeVision_HPS_FPGA/SW/main.c:97-129 | n iterations store the first n answers at the first n stores, pass the first n words to the accelerator and make the first n exchanges |
| FpgaStreaming.StreamCell | EdgeVision_HPS_FPGA/SW/main.c:104-129 | one pass of the column loop's body sends the word of pixel x of row i in channel k and stores the answer at that pixel's index, inside the buffer, and nowhere else |
| FpgaStreaming.StreamNext | EdgeVision_HPS_FPGA/SW/main.c:101-129 | the same pass is iteration n of the whole loop: it takes the loop from n to n+1 iterations done |
| FpgaStreaming.StreamRow | EdgeVision_HPS_FPGA/SW/main.c:101-130 | the column loop of row i in channel k does exactly that row's iterations, in order |
| FpgaStreaming.StreamChannel | EdgeVision_HPS_FPGA/SW/main.c:99-134 | the row loop of channel k does exactly that channel's iterations, in order, and input_row ends zeroed |
| FpgaStreaming.StreamChannels | EdgeVision_HPS_FPGA/SW/main.c:97-135 | the channel loop does every iteration of the image, in order |
| FpgaStreaming.StreamLoop | EdgeVision_HPS_FPGA/SW/main.c:97-135 | the three loops over ROWS*COLS bytes leave the answers scattered over the stores, and the accelerator has received the loop's words, with their exchanges traced |
| FpgaProgram.StreamedImage | EdgeVision_HPS_FPGA/SW/main.c:89-135 | the buffer after the loop has ROWS*COLS bytes (none when ROWS is negative), each of them one of the stores, and store t holds the accelerator's answer once it has received the image's first t+1 words |
| FpgaProgram.StepOutcome | EdgeVision_HPS_FPGA/SW/main.c:51-136 | an iteration aborts, always with 1, exactly when the path is shorter than 4 characters or the load fails; otherwise it saves under the image's output name and sends one word per byte of the ROWS*COLS buffer (none for a negative height) |
| FpgaProgram.SentWordsPaired | EdgeVision_HPS_FPGA/SW/main.c:97-129 | an image's requests are write/read pairs, each read returning the answer to every word received so far, and they write exactly the image's words, one per byte of the ROWS*COLS buffer |
| FpgaProgram.RunFromSaves | EdgeVision_HPS_FPGA/SW/main.c:41-149 | the loop saves the images in argv order, named after their inputs; it returns 0 exactly when it saved all of them and 1 otherwise |
| FpgaProgram.RunFromStops | EdgeVision_HPS_FPGA/SW/main.c:41-149 | a run that stops early stops at the first image left unsaved, because that image's path was too short or its load failed |
| FpgaProgram.ProgramOrder | EdgeVision_HPS_FPGA/SW/main.c:14-154 | rejected arguments return 1 and do nothing; a failed configure returns -1 before any image and sends nothing; otherwise saves follow in argv order; 0 comes with all images saved and the bridge released last; 1 comes with no release, stopped by the first unsaved image; the run's requests are write/read pairs that write its words |
| FpgaProgram.ProgramRequests | EdgeVision_HPS_FPGA/SW/main.c:41-149 | over a whole run every write is followed by one read of the answer to every word received so far, and the writes are the run's words |
| FpgaProgram.ReleasedOnSuccess | EdgeVision_HPS_FPGA/SW/main.c:151-154 | the bridge is released exactly when the run returns 0, once, as its last effect |
| FpgaProgram.SavedImageReloads | EdgeVision_HPS_FPGA/SW/main.c:136 | the saved file loads back with the input's info header and the first biSizeImage bytes of the streamed image |
| FpgaProgram.StreamedImageIs | EdgeVision_HPS_FPGA/SW/main.c:89-135 | whatever malloc left in the ROWS*COLS buffer, the loop's stores turn it into StreamedImage |
| FpgaProgram.FilterAndSave | EdgeVision_HPS_FPGA/SW/main.c:83-136 | streaming into a fresh ROWS*COLS buffer and saving writes Written (the headers, palette and streamed image); the accelerator receives SentWords and the accesses are their exchanges; bitmapData is unchanged |
| FpgaProgram.ProcessImage | EdgeVision_HPS_FPGA/SW/main.c:43-145 | one iteration is ImageStep: its effect, the new palette, and exactly the exchanges of its words on the bridge, with the globals other than the input register unchanged |
| FpgaProgram.ImageLoop | EdgeVision_HPS_FPGA/SW/main.c:41-149 | the while loop's exit code and saves are those of RunFrom from argv[2], the accelerator receives RunFrom's words and the accesses are their exchanges |
| FpgaProgram.FpgaMain | EdgeVision_HPS_FPGA/SW/main.c:12-155 | main's exit code, effects and accesses are Program's; the system calls are configure's plus, on 0 only, cleanup's; a 0 exit leaves lw_bridge_base NULL and fd -1 |
| HpsProgram.FilteredImage | EdgeVision_HPS/main.c:92-97 | the buffer after Sobel has width*height*bpp bytes and is SobelImage when no dimension is 0 |
| HpsProgram.StepOutcome | EdgeVision_HPS/main.c:55-99 | an aborted iteration aborts for the reason StopsWith gives: 1 for a short path or failed load, 0 for a failed output malloc, which a negative size request always is; otherwise it saves under the image's output name |
| FpgaProgram.TopDownSavesHeadersOnly | EdgeVision_HPS_FPGA/SW/main.c:83-136 | a bitmap with a negative height (top-down) is processed: ROWS is negative, so the loop sends no word, and the file written, when the directory exists and fopen succeeds, is the headers and the palette with no pixel bytes |
| HpsProgram.TopDownStopsWithZero | EdgeVision_HPS/main.c:88-96 | a bitmap with a negative height (top-down) loads, but ROWS*COLS*BYTES_PER_PIXEL is negative, malloc fails and the run ends with 0 at that image |
| HpsProgram.RunFromSaves | EdgeVision_HPS/main.c:45-112 | the loop saves the images in argv order, named after their inputs, and returns 0 once the last is saved |
| HpsProgram.RunFromStops | EdgeVision_HPS/main.c:45-112 | a run that stops early stops at the first image left unsaved, for the reason its exit code gives |
| HpsProgram.RunFromStep | EdgeVision_HPS/main.c:45-112 | the loop at argv[t] stops with that image's code, or saves that image and goes on with the next |
| HpsProgram.ProgramOrder | EdgeVision_HPS/main.c:24-113 | rejected arguments return 1 and do nothing; otherwise the prologue is followed by the saves in argv order, with 0 when all are saved and otherwise the code of the first unsaved image's stop |
| HpsProgram.PrologueEffects | EdgeVision_HPS/main.c:37-40 | stdout is redirected exactly with "-o", and "output" is created right before the first save |
| HpsProgram.SavedImageReloads | EdgeVision_HPS/main.c:97-99 | the saved file loads back with the rewritten info header, and, for rows that are a multiple of 4 bytes, exactly the Sobel-filtered pixels |
| HpsProgram.ProcessImage | EdgeVision_HPS/main.c:47-108 | one iteration is ImageStep, including a loaded header whose size request is negative, and leaves the palette that ImageStep records |
| HpsProgram.FilterAndSave | EdgeVision_HPS/main.c:88-99 | after the load: a negative size request or a failed malloc returns 0; otherwise Sobel fills the buffer and the save writes the filtered image |
| HpsProgram.ImageLoop | EdgeVision_HPS/main.c:45-112 | the while loop's exit code and saves are those of RunFrom from argv[2] |
| HpsProgram.HpsMain | EdgeVision_HPS/main.c:22-114 | main's exit code and effects are Program's |

## Left out

- File and console I/O are not modelled: `fopen`, `fread`, `fseek`,
  `fwrite`, `fclose`, `perror`, `printf`, `print_image_header` and
  `print_footer`. A file is its bytes. The outcome of opening one is a
  parameter.
- The internals of `createDirectory` (`stat`/`mkdir`) and of
  `writeOutPutfile` (`freopen`) are not modelled. The programs ignore both
  results, except the FPGA save's check of `createDirectory("output")`. The
  model records them as `MakeDirectory` and `RedirectOutput` effects, and
  that one check is a parameter.
- `clock()` and the `double` runtime totals are left out. They are
  floating point and do not affect any result.
- The real `/dev/mem` open, `mmap`/`munmap`, `close` and volatile register
  semantics are replaced. The OS results are parameters and the calls go
  into a ghost trace.
- FpgaDriver.FpgaBridge.ReadFromFpga: the hardware behind the bridge is
  not part of the model. The byte it reads is an arbitrary function of
  every word the accelerator has received, in order, so nothing is proved
  about what the hardware computes from them.
- `free` is left out. The model never reuses a buffer after it is freed.
- The unused globals `line_buffer` and `output_row` and the hwlib/socal
  includes are left out.
- BitmapCodec.LoadBitmapFile: requires the file to hold what its headers
  point to, namely the pixel bytes after `bfOffBits` and a palette within
  1024 bytes. This is the `Loadable` predicate. The C code reads such files
  without checking and overflows the global palette or reads short. The
  code does not check the `fread`/`fseek` results either.
- BitmapCodec.SaveBitmapFileHps: requires a non-negative width and height,
  a palette within 1024 bytes, and sizes for which the save's `int`
  arithmetic does not overflow (`HpsSavable`).
- BitmapCodec.SaveBitmapFileFpga: requires sizes for which its `int`/`long`
  arithmetic does not overflow (`FpgaSavable`). It also requires a buffer
  of at least bpp*height*stride bytes: the C code reads past a shorter
  one. The `calloc` of `tk` is assumed to succeed, since the source never
  checks it.
- HpsProgram.ProcessImage: a header whose `int` size request
  ROWS*COLS*BYTES_PER_PIXEL is negative (one negative dimension and the
  other factors positive, as in a top-down bitmap) is modelled: malloc
  fails and the run returns 0. The `World` type excludes every other header
  with a negative dimension. A zero factor with it gives a request of 0,
  and two negative dimensions give a positive one; Sobel then returns at
  once while the save computes with negative sizes. It also excludes a
  request that overflows `int`, a loaded buffer shorter than
  width*height*bpp (Sobel would read past it), and any geometry for which
  the save overflows or its palette exceeds 1024 bytes (`HpsSavable`).
- FpgaProgram.ProcessImage: a negative height (a top-down bitmap) is
  modelled. ROWS is then negative, the `malloc(ROWS*COLS)` buffer is never
  touched, the loop sends nothing and the save writes the headers and the
  palette only (TopDownSavesHeadersOnly). The `World` type excludes a
  negative width: with a positive height the save then passes a negative
  `bytesperline` and the result of a failed `calloc` to `fwrite`, and the
  model's row length is defined for widths of at least 0 only. It also
  excludes any geometry for which ROWS, COLS, ROWS*COLS or an index
  `(i+1)*COLS + j + k` overflows `int`, whatever the later outcome of the
  save. When the "output" directory exists it also excludes geometry the
  save overflows on (`FpgaSavable`); when the file then opens, it excludes
  a palette over 1024 bytes and a save that would read past the buffer.
  A non-negative `malloc(ROWS*COLS)` is assumed to succeed, since the
  source does not check it.
- FpgaProgram.SavedImageReloads: requires biSizeImage to be at most the
  number of pixel bytes the save writes. Otherwise the reloaded file is
  shorter than its header claims.
- Integers are unbounded. Wrap-around is written out where the programs
  rely on it:
  - the `size_t` precision of the output name;
  - the DWORD header fields patched by the FPGA save;
  - the uint32_t accumulator of `prepareDataforTx`.
  Elsewhere, preconditions rule out overflow: `Sobel` requires
  width*height*bytesPerPixel, which bounds every index it computes, to fit
  in an `int`; `StreamImage` requires ROWS, COLS and (ROWS+1)*COLS, which
  bounds every index `(i+1)*COLS + j + k`, to fit. In the `main`s the
  `World` types do, as the HpsProgram.ProcessImage and
  FpgaProgram.ProcessImage lines above describe.
- Bitwise operations on non-negative `int`s are modelled by their
  arithmetic meaning. BitwiseMeaning proves the same identities on 32-bit
  words.
- Several C loops are split into helper methods, one per nesting level:
  - `Sobel`: ClearOutput, FilterRow, FilterPixel, FilterChannel;
  - the streaming loop: StreamChannels, StreamChannel, StreamRow,
    StreamNext, StreamCell;
  - the saves: WriteRows, CopyRow, WriteFpgaImage, CopyLine.
  Each keeps the loop's order and its updates in place.
- FpgaMain returns -1 as the model's exit code when configuration fails,
  as the source does. The operating system reports -1 as 255.
- Notable behaviours of the code:
  - `cleanup_fpga` runs only on the success path, not on every exit path;
  - the HPS program returns 0, not an error code, when the output buffer
    cannot be allocated;
  - neither save reports write failures;
  - the FPGA save's `bfSize` leaves out the palette (FpgaHeaderDescribesFile);
  - the FPGA save copies bpp*height*stride bytes, where stride is the row
    length rounded up to 4, out of the (height*bpp)*(width*bpp) bytes of
    the streamed buffer (EdgeVision_HPS_FPGA/SW/EdgeVision.c:144-150). For a
    24-bit image 5 pixels wide and 2 high that is 96 bytes read from a
    90-byte buffer. The model requires the buffer to be long enough
    (`FpgaProgram.Fits`), so it does not say what such a save writes.
