/** The main of the accelerated program: after the argument check it
    optionally redirects standard output, creates "output.txt", configures
    the bridge (returning -1 when that fails, before any image), and then
    takes the images argv[2], argv[3], ... in order, each through
    LoadBitmapFile -> the streaming loop -> SaveBitmapFile. An invalid input
    name or a failed load ends the run with 1 at once, leaving the bridge
    mapped; after the last image the bridge is released and the run ends
    with 0. The file contents and the outcome of every allocation, fopen and
    createDirectory are what the system answers, one ImageWorld per
    iteration. */
module FpgaProgram {
  import opened Bytes
  import opened Optional
  import opened BmpLayout
  import opened BitmapCodec
  import opened FpgaDriver
  import opened FpgaStreaming
  import opened CommandLine

  /** What the system answers during one iteration: the input file's bytes
      (None when fopen fails), whether the load's pixel buffer can be
      allocated, and whether the save finds its "output" directory and can
      open the output file. */
  datatype ImageWorld = ImageWorld(file: Option<seq<byte>>, loadAllocates: bool, dirCreated: bool, opens: bool)

  /** One iteration: the run stops with an exit code, or the image was saved
      after the streaming loop sent `words` to the accelerator, and the
      global palette holds what its load left there. */
  datatype Step = Abort(code: int) | Processed(palette: seq<byte>, effect: Effect, words: seq<Dword>)

  /** A whole run: its exit code, its effects and the words it sent to the
      accelerator, in order. */
  datatype Run = Run(code: int, effects: seq<Effect>, words: seq<Dword>)

  /** The bytes of the output buffer the loop can use: ROWS * COLS =
      (height*bpp) * (width*bpp), or none for a negative height (a top-down
      bitmap), whose negative request malloc cannot meet. */
  function BufferSize(ih: InfoHeader): nat
    requires ih.biWidth >= 0
  {
    Extent(ih.biHeight, BytesPerPixel(ih)) * (ih.biWidth * BytesPerPixel(ih))
  }

  /** What the program takes for granted about an image it opens: the file
      holds the parts its headers point to, and the header fits the
      geometry the loop and the save compute (the program checks none of
      this). */
  predicate Processable(world: ImageWorld)
  {
    world.file.Some? ==>
      Loadable(world.file.value)
      && (ParseBitmap(world.file.value).Some? ==> Fits(ParseBitmap(world.file.value).value.infoHeader, world))
  }

  /** The width is not negative (the save's line buffer is sized by it);
      ROWS, COLS, ROWS*COLS and every index (i+1)*COLS + j + k the loop
      computes fit in an int; and what the save reads of the output buffer
      lies inside it. A negative height (a top-down bitmap) is admitted. */
  predicate Fits(ih: InfoHeader, world: ImageWorld)
  {
    && ih.biWidth >= 0
    && -0x8000_0000 <= ih.biHeight * BytesPerPixel(ih) < 0x8000_0000 && ih.biWidth * BytesPerPixel(ih) < 0x8000_0000
    && -0x8000_0000 <= (ih.biHeight * BytesPerPixel(ih)) * (ih.biWidth * BytesPerPixel(ih))
    && (ih.biHeight * BytesPerPixel(ih) + 1) * (ih.biWidth * BytesPerPixel(ih)) < 0x8000_0000
    && (world.dirCreated ==> FpgaSavable(ih))
    && (world.dirCreated && world.opens ==>
          PaletteSize(ih) <= PALETTE_CAPACITY && FpgaImageSize(ih) <= BufferSize(ih))
  }

  /** The answers the program can be given: a missing file qualifies. */
  type World = w: ImageWorld | Processable(w) witness ImageWorld(None, false, false, false)

  /** The words the streaming loop sends for an image, in loop order. */
  function SentWords(pixels: seq<byte>, ih: InfoHeader): seq<Dword>
    requires ih.biWidth >= 0
  {
    ImageWords(pixels, Extent(ih.biHeight, BytesPerPixel(ih)), ih.biWidth, BytesPerPixel(ih))
  }

  /** The indices of the output buffer the loop stores at, in loop order. */
  function Stores(ih: InfoHeader): seq<int>
    requires ih.biWidth >= 0
  {
    ImageStores(Extent(ih.biHeight, BytesPerPixel(ih)), ih.biWidth, BytesPerPixel(ih))
  }

  /** The output buffer after the streaming loop, for an accelerator that
      had received `history` before it: every byte of the ROWS*COLS buffer
      is one of the stores, and store t holds the accelerator's answer once
      it has received the first t + 1 words of the image. */
  function StreamedImage(pixels: seq<byte>, ih: InfoHeader, accelerator: seq<Dword> -> byte,
                         history: seq<Dword>): (r: seq<byte>)
    requires ih.biWidth >= 0
    ensures |r| == BufferSize(ih) == |Stores(ih)|
    ensures forall p :: 0 <= p < |r| ==> p in Stores(ih)
    ensures forall t :: 0 <= t < |Stores(ih)| ==>
      && 0 <= Stores(ih)[t] < |r|
      && r[Stores(ih)[t]] == accelerator(history + SentWords(pixels, ih)[..t + 1])
  {
    var bpp := BytesPerPixel(ih);
    var rows, w := Extent(ih.biHeight, bpp), ih.biWidth;
    BufferGeometry(ih);
    ImageStoresExactlyOnce(rows, w, bpp);
    ScatteredAnswers(Zeros(BufferSize(ih)), history, pixels, rows, w, bpp, accelerator);
    Scatter(Zeros(BufferSize(ih)), Stores(ih), Answers(history, SentWords(pixels, ih), accelerator))
  }

  /** The loop stores every byte of the buffer, so what the buffer held
      before (malloc leaves it undefined) does not matter. */
  lemma StreamedImageIs(base: seq<byte>, pixels: seq<byte>, ih: InfoHeader, accelerator: seq<Dword> -> byte,
                        history: seq<Dword>)
    requires ih.biWidth >= 0 && |base| == BufferSize(ih)
    ensures Scatter(base, Stores(ih), Answers(history, SentWords(pixels, ih), accelerator))
         == StreamedImage(pixels, ih, accelerator, history)
  {
    var bpp := BytesPerPixel(ih);
    BufferGeometry(ih);
    ImageStoresExactlyOnce(Extent(ih.biHeight, bpp), ih.biWidth, bpp);
    ScatterCovers(base, Zeros(BufferSize(ih)), Stores(ih), Answers(history, SentWords(pixels, ih), accelerator));
  }

  /** ROWS*COLS as the loop counts it; a negative height counts no row. */
  lemma BufferGeometry(ih: InfoHeader)
    requires ih.biWidth >= 0
    ensures var bpp := BytesPerPixel(ih);
      && (ih.biHeight >= 0 ==> Extent(ih.biHeight, bpp) == ih.biHeight * bpp)
      && Extent(ih.biWidth, bpp) == ih.biWidth * bpp
      && BufferSize(ih) == Extent(ih.biHeight, bpp) * Extent(ih.biWidth, bpp)
      && BufferSize(ih) == if (ih.biHeight * bpp) * (ih.biWidth * bpp) < 0 then 0
                           else (ih.biHeight * bpp) * (ih.biWidth * bpp)
  {
  }

  /** The load fails: no file, not a bitmap, or no memory for its pixels. */
  predicate LoadFails(world: World)
  {
    world.file.None? || ParseBitmap(world.file.value).None? || !world.loadAllocates
  }

  /** What SaveBitmapFile writes for loaded bitmap b: nothing without the
      "output" directory or when fopen fails, else the headers, the palette
      and the streamed image. */
  function Written(b: Bitmap, world: ImageWorld, palette: seq<byte>, accelerator: seq<Dword> -> byte,
                   history: seq<Dword>): Option<seq<byte>>
    requires Fits(b.infoHeader, world) && |palette| == PALETTE_CAPACITY
  {
    if world.dirCreated && world.opens
    then Some(FpgaFileBytes(b.fileHeader, b.infoHeader, palette, StreamedImage(b.pixels, b.infoHeader, accelerator, history)))
    else None
  }

  /** One iteration of the image loop (lines 43-145) for input path `path`,
      starting from the global palette `palette` and an accelerator that
      has received `history`. */
  function ImageStep(path: string, world: World, palette: seq<byte>, accelerator: seq<Dword> -> byte,
                     history: seq<Dword>): Step
    requires |palette| == PALETTE_CAPACITY
  {
    if |path| < 4 || NameTooLong(path, FPGA_SUFFIX) then Abort(1)
    else if LoadFails(world) then Abort(1)
    else
      var b := ParseBitmap(world.file.value).value;
      var palette' := b.palette + palette[|b.palette|..];
      Processed(palette', SaveImage(OutputName(path, FPGA_SUFFIX), Written(b, world, palette', accelerator, history)),
                SentWords(b.pixels, b.infoHeader))
  }

  /** The image loop from argv[t] on. */
  function RunFrom(argv: seq<string>, world: nat -> World, t: nat, palette: seq<byte>,
                   accelerator: seq<Dword> -> byte, history: seq<Dword>): Run
    requires |palette| == PALETTE_CAPACITY
    decreases |argv| - t
  {
    if t >= |argv| then Run(0, [], [])
    else
      match ImageStep(argv[t], world(t), palette, accelerator, history)
      case Abort(code) => Run(code, [], [])
      case Processed(palette', effect, words) =>
        var rest := RunFrom(argv, world, t + 1, palette', accelerator, history + words);
        Run(rest.code, [effect] + rest.effects, words + rest.words)
  }

  /** The effects before configure_fpga. */
  function Prologue(argv: seq<string>): seq<Effect>
    requires ArgumentsAccepted(argv)
  {
    (if RedirectsOutput(argv) then [RedirectOutput] else []) + [MakeDirectory("output.txt")]
  }

  /** A whole run of main, given what open("/dev/mem") and mmap return. */
  function Program(argv: seq<string>, world: nat -> World, openResult: int, mapResult: Mapping,
                   palette: seq<byte>, accelerator: seq<Dword> -> byte, history: seq<Dword>): Run
    requires |palette| == PALETTE_CAPACITY
  {
    if !ArgumentsAccepted(argv) then Run(1, [], [])
    else if ConfigureStatus(openResult, mapResult) != 0 then Run(-1, Prologue(argv) + [ConfigureBridge], [])
    else
      var r := RunFrom(argv, world, 2, palette, accelerator, history);
      Run(r.code, Prologue(argv) + [ConfigureBridge] + r.effects + (if r.code == 0 then [ReleaseBridge] else []),
          r.words)
  }

  // ---------------------------------------------------------------------
  // What a run does

  /** Why an iteration stops the run: an input path shorter than four
      characters, or a failed load. */
  predicate Stops(path: string, world: World)
  {
    |path| < 4 || LoadFails(world)
  }

  /** An iteration stops with 1 exactly when Stops says so; otherwise it
      saves the image under its output name after sending one word per byte
      of the output buffer. */
  lemma StepOutcome(path: string, world: World, palette: seq<byte>, accelerator: seq<Dword> -> byte,
                    history: seq<Dword>)
    requires |palette| == PALETTE_CAPACITY
    ensures var step := ImageStep(path, world, palette, accelerator, history);
      && (step.Abort? <==> Stops(path, world))
      && (step.Abort? ==> step.code == 1)
      && (step.Processed? ==>
            var ih := ParseBitmap(world.file.value).value.infoHeader;
            && step.effect.SaveImage? && step.effect.name == OutputName(path, FPGA_SUFFIX)
            && |step.palette| == PALETTE_CAPACITY
            && |step.words| == BufferSize(ih))
  {
    NameAlwaysFits(path, FPGA_SUFFIX);
    if !Stops(path, world) {
      var b := ParseBitmap(world.file.value).value;
      SentWordsPaired(b.pixels, b.infoHeader, accelerator, history);
    }
  }

  /** A top-down bitmap (negative height) makes ROWS negative: the loop
      sends no word and stores nothing, and the save copies no pixel row,
      so the file written holds the headers and the palette only. */
  lemma TopDownSavesHeadersOnly(path: string, world: World, palette: seq<byte>, accelerator: seq<Dword> -> byte,
                                history: seq<Dword>)
    requires |palette| == PALETTE_CAPACITY
    requires !Stops(path, world) && ParseBitmap(world.file.value).value.infoHeader.biHeight < 0
    ensures var b := ParseBitmap(world.file.value).value;
      var ih := b.infoHeader;
      var step := ImageStep(path, world, palette, accelerator, history);
      && step.Processed? && step.words == []
      && step.effect == SaveImage(OutputName(path, FPGA_SUFFIX),
           if world.dirCreated && world.opens
           then Some(EncodeFileHeader(FpgaFileHeader(b.fileHeader, ih)) + EncodeInfoHeader(ih)
                     + step.palette[..PaletteSize(ih)])
           else None)
  {
    NameAlwaysFits(path, FPGA_SUFFIX);
    var b := ParseBitmap(world.file.value).value;
    var palette' := b.palette + palette[|b.palette|..];
    assert ImageStep(path, world, palette, accelerator, history)
        == Processed(palette', SaveImage(OutputName(path, FPGA_SUFFIX), Written(b, world, palette', accelerator, history)),
                     SentWords(b.pixels, b.infoHeader));
    TopDownWritten(b, world, palette', accelerator, history);
  }

  /** The part of TopDownSavesHeadersOnly about the loaded bitmap. */
  lemma TopDownWritten(b: Bitmap, world: ImageWorld, palette: seq<byte>, accelerator: seq<Dword> -> byte,
                       history: seq<Dword>)
    requires Fits(b.infoHeader, world) && |palette| == PALETTE_CAPACITY && b.infoHeader.biHeight < 0
    ensures SentWords(b.pixels, b.infoHeader) == []
    ensures Written(b, world, palette, accelerator, history)
         == if world.dirCreated && world.opens
            then Some(EncodeFileHeader(FpgaFileHeader(b.fileHeader, b.infoHeader)) + EncodeInfoHeader(b.infoHeader)
                      + palette[..PaletteSize(b.infoHeader)])
            else None
  {
    var ih := b.infoHeader;
    assert BufferSize(ih) == 0;
    SentWordsPaired(b.pixels, ih, accelerator, history);
    if world.dirCreated && world.opens {
      assert FpgaImageSize(ih) == 0 by {
        FpgaImageSizeIsProduct(ih);
      }
      var image := StreamedImage(b.pixels, ih, accelerator, history);
      var headers := EncodeFileHeader(FpgaFileHeader(b.fileHeader, ih)) + EncodeInfoHeader(ih) + palette[..PaletteSize(ih)];
      assert image[..FpgaImageSize(ih)] == [];
      assert FpgaFileBytes(b.fileHeader, ih, palette, image) == headers + [] == headers;
    }
  }

  /** The requests of an image come in write/read pairs, each read
      returning the accelerator's answer to everything it has received, the
      word just written last; they write the image's words, one per byte of
      the ROWS*COLS output buffer. */
  lemma SentWordsPaired(pixels: seq<byte>, ih: InfoHeader, accelerator: seq<Dword> -> byte, history: seq<Dword>)
    requires ih.biWidth >= 0
    ensures var requests := Exchanges(history, SentWords(pixels, ih), accelerator);
      && Paired(requests, history, accelerator)
      && WrittenWords(requests) == SentWords(pixels, ih)
      && |SentWords(pixels, ih)| == BufferSize(ih)
  {
    var bpp := BytesPerPixel(ih);
    ExchangesPaired(history, SentWords(pixels, ih), accelerator);
    ImageStoresExactlyOnce(Extent(ih.biHeight, bpp), ih.biWidth, bpp);
  }

  /** The loop saves the images in argv order, one SaveImage each, named
      after its input, and ends with 0 exactly when it got through all of
      them, with 1 otherwise. */
  lemma {:induction false} RunFromSaves(argv: seq<string>, world: nat -> World, t: nat, palette: seq<byte>,
                                        accelerator: seq<Dword> -> byte, history: seq<Dword>)
    requires |palette| == PALETTE_CAPACITY && t <= |argv|
    ensures var r := RunFrom(argv, world, t, palette, accelerator, history);
      && SavesOf(r.effects, argv[t..], FPGA_SUFFIX)
      && (t + |r.effects| == |argv| <==> r.code == 0)
      && (r.code == 0 || r.code == 1)
    decreases |argv| - t
  {
    if t < |argv| {
      StepOutcome(argv[t], world(t), palette, accelerator, history);
      match ImageStep(argv[t], world(t), palette, accelerator, history)
      case Abort(code) =>
      case Processed(palette', effect, words) =>
        RunFromSaves(argv, world, t + 1, palette', accelerator, history + words);
        var rest := RunFrom(argv, world, t + 1, palette', accelerator, history + words);
        assert ([effect] + rest.effects)[1..] == rest.effects;
        assert argv[t..][1..] == argv[t + 1..];
    }
  }

  /** A run that stops early stops at the first image not saved. */
  lemma {:induction false} RunFromStops(argv: seq<string>, world: nat -> World, t: nat, palette: seq<byte>,
                                        accelerator: seq<Dword> -> byte, history: seq<Dword>)
    requires |palette| == PALETTE_CAPACITY && t <= |argv|
    ensures StopsAfter(RunFrom(argv, world, t, palette, accelerator, history), argv, world, t)
    decreases |argv| - t
  {
    if t < |argv| {
      StepOutcome(argv[t], world(t), palette, accelerator, history);
      match ImageStep(argv[t], world(t), palette, accelerator, history)
      case Abort(code) =>
        assert RunFrom(argv, world, t, palette, accelerator, history) == Run(code, [], []);
      case Processed(palette', effect, words) =>
        RunFromStops(argv, world, t + 1, palette', accelerator, history + words);
        var rest := RunFrom(argv, world, t + 1, palette', accelerator, history + words);
        assert RunFrom(argv, world, t, palette, accelerator, history)
            == Run(rest.code, [effect] + rest.effects, words + rest.words);
        StopsAfterShift(rest, effect, words, argv, world, t);
    }
  }

  /** The saves of run r start at argv[t]; if they stop short of the end,
      the image after the last save is why. */
  predicate StopsAfter(r: Run, argv: seq<string>, world: nat -> World, t: nat)
  {
    t + |r.effects| < |argv| ==> Stops(argv[t + |r.effects|], world(t + |r.effects|))
  }

  lemma StopsAfterShift(r: Run, effect: Effect, words: seq<Dword>, argv: seq<string>, world: nat -> World, t: nat)
    requires StopsAfter(r, argv, world, t + 1)
    ensures StopsAfter(Run(r.code, [effect] + r.effects, words + r.words), argv, world, t)
  {
    assert t + |[effect] + r.effects| == t + 1 + |r.effects|;
  }

  /** A rejected command line returns 1 and does nothing. Otherwise the
      program redirects standard output (for "-o" only), creates
      "output.txt" and configures the bridge; when that fails it returns -1
      before any image and sends nothing. Then come the saves, one per image
      in argv order; the run returns 0 and releases the bridge, once and
      last, exactly when every image was saved, and otherwise returns 1
      without releasing it, for the reason Stops gives about the first image
      left unsaved. The requests of the run write its words, each followed
      by the read of the accelerator's answer. */
  lemma ProgramOrder(argv: seq<string>, world: nat -> World, openResult: int, mapResult: Mapping,
                     palette: seq<byte>, accelerator: seq<Dword> -> byte, history: seq<Dword>)
    requires |palette| == PALETTE_CAPACITY
    ensures !ArgumentsAccepted(argv) ==>
      Program(argv, world, openResult, mapResult, palette, accelerator, history) == Run(1, [], [])
    ensures ArgumentsAccepted(argv) && ConfigureStatus(openResult, mapResult) != 0 ==>
      var r := Program(argv, world, openResult, mapResult, palette, accelerator, history);
      r.code == -1 && r.effects == Prologue(argv) + [ConfigureBridge] && r.words == []
    ensures ArgumentsAccepted(argv) && ConfigureStatus(openResult, mapResult) == 0 ==>
      var r := Program(argv, world, openResult, mapResult, palette, accelerator, history);
      var saves := RunFrom(argv, world, 2, palette, accelerator, history).effects;
      && (r.code == 0 || r.code == 1)
      && (r.code == 0 ==> r.effects == Prologue(argv) + [ConfigureBridge] + saves + [ReleaseBridge]
                          && 2 + |saves| == |argv|)
      && (r.code == 1 ==> r.effects == Prologue(argv) + [ConfigureBridge] + saves
                          && 2 + |saves| < |argv|
                          && Stops(argv[2 + |saves|], world(2 + |saves|)))
      && (forall i :: 0 <= i < |saves| ==>
            saves[i].SaveImage? && saves[i].name == OutputName(argv[2 + i], FPGA_SUFFIX))
    ensures var r := Program(argv, world, openResult, mapResult, palette, accelerator, history);
      && Paired(Exchanges(history, r.words, accelerator), history, accelerator)
      && WrittenWords(Exchanges(history, r.words, accelerator)) == r.words
  {
    ProgramRequests(argv, world, openResult, mapResult, palette, accelerator, history);
    if ArgumentsAccepted(argv) && ConfigureStatus(openResult, mapResult) == 0 {
      var run := RunFrom(argv, world, 2, palette, accelerator, history);
      RunFromSaves(argv, world, 2, palette, accelerator, history);
      RunFromStops(argv, world, 2, palette, accelerator, history);
      SavesOfAt(run.effects, argv[2..], FPGA_SUFFIX);
      forall i | 0 <= i < |run.effects|
        ensures run.effects[i].SaveImage? && run.effects[i].name == OutputName(argv[2 + i], FPGA_SUFFIX)
      {
        assert argv[2..][i] == argv[2 + i];
      }
      var r := Program(argv, world, openResult, mapResult, palette, accelerator, history);
      if run.code == 0 {
        assert r == Run(0, Prologue(argv) + [ConfigureBridge] + run.effects + [ReleaseBridge], run.words);
      } else {
        assert r == Run(run.code, Prologue(argv) + [ConfigureBridge] + run.effects + [], run.words);
        assert Prologue(argv) + [ConfigureBridge] + run.effects + [] == Prologue(argv) + [ConfigureBridge] + run.effects;
      }
    }
  }

  /** The requests of a run write its words, each followed by the read of
      the accelerator's answer to everything received so far. */
  lemma ProgramRequests(argv: seq<string>, world: nat -> World, openResult: int, mapResult: Mapping,
                        palette: seq<byte>, accelerator: seq<Dword> -> byte, history: seq<Dword>)
    requires |palette| == PALETTE_CAPACITY
    ensures var r := Program(argv, world, openResult, mapResult, palette, accelerator, history);
      && Paired(Exchanges(history, r.words, accelerator), history, accelerator)
      && WrittenWords(Exchanges(history, r.words, accelerator)) == r.words
  {
    var r := Program(argv, world, openResult, mapResult, palette, accelerator, history);
    ExchangesPaired(history, r.words, accelerator);
  }

  /** The bridge is released exactly when the run returns 0, once and as
      the last effect. */
  lemma ReleasedOnSuccess(argv: seq<string>, world: nat -> World, openResult: int, mapResult: Mapping,
                          palette: seq<byte>, accelerator: seq<Dword> -> byte, history: seq<Dword>)
    requires |palette| == PALETTE_CAPACITY
    ensures var r := Program(argv, world, openResult, mapResult, palette, accelerator, history);
      && (r.code == 0 <==> ReleaseBridge in r.effects)
      && (r.code == 0 ==> r.effects[|r.effects| - 1] == ReleaseBridge
                          && ReleaseBridge !in r.effects[..|r.effects| - 1])
  {
    ProgramOrder(argv, world, openResult, mapResult, palette, accelerator, history);
    var r := Program(argv, world, openResult, mapResult, palette, accelerator, history);
    if ArgumentsAccepted(argv) {
      var head := Prologue(argv) + [ConfigureBridge];
      assert ReleaseBridge !in head;
      if ConfigureStatus(openResult, mapResult) == 0 {
        var saves := RunFrom(argv, world, 2, palette, accelerator, history).effects;
        NoRelease(head, saves);
        if r.code == 0 {
          assert r.effects[..|r.effects| - 1] == head + saves;
        }
      }
    }
  }

  /** Configuring and saving never release the bridge. */
  lemma NoRelease(head: seq<Effect>, saves: seq<Effect>)
    requires ReleaseBridge !in head
    requires forall i :: 0 <= i < |saves| ==> saves[i].SaveImage?
    ensures ReleaseBridge !in head + saves
  {
    forall i | 0 <= i < |head + saves|
      ensures (head + saves)[i] != ReleaseBridge
    {
      if i >= |head| {
        assert (head + saves)[i] == saves[i - |head|];
      }
    }
  }

  /** The FPGA save writes the loop's output: loading a saved file gives
      back the first biSizeImage bytes of the streamed image, whenever
      biSizeImage does not exceed what the save wrote. */
  lemma SavedImageReloads(path: string, world: World, palette: seq<byte>, accelerator: seq<Dword> -> byte,
                          history: seq<Dword>)
    requires |palette| == PALETTE_CAPACITY
    requires ImageStep(path, world, palette, accelerator, history).Processed?
    requires world.dirCreated && world.opens
    requires ParseBitmap(world.file.value).value.infoHeader.biSizeImage
          <= FpgaImageSize(ParseBitmap(world.file.value).value.infoHeader)
    ensures var b := ParseBitmap(world.file.value).value;
      var ih := b.infoHeader;
      var written := ImageStep(path, world, palette, accelerator, history).effect.written;
      && written.Some?
      && Loadable(written.value)
      && ParseBitmap(written.value).Some?
      && ParseBitmap(written.value).value.infoHeader == ih
      && ParseBitmap(written.value).value.pixels
           == StreamedImage(b.pixels, ih, accelerator, history)[..ih.biSizeImage]
  {
    var b := ParseBitmap(world.file.value).value;
    var ih := b.infoHeader;
    var palette' := b.palette + palette[|b.palette|..];
    var image := StreamedImage(b.pixels, ih, accelerator, history);
    MagicOfParsed(world.file.value);
    FpgaSaveReloads(b.fileHeader, ih, palette', image);
  }

  /** A file that parses carries the BM magic in its header. */
  lemma MagicOfParsed(file: seq<byte>)
    requires Loadable(file) && ParseBitmap(file).Some?
    ensures ParseBitmap(file).value.fileHeader.bfType == BMP_MAGIC
  {
  }

  // ---------------------------------------------------------------------
  // main

  /** Lines 43-145: one image, from its path to the saved file, with the
      bridge configured. */
  method ProcessImage(path: string, world: World, bridge: FpgaBridge, palette: array<byte>, inputRow: array<byte>)
    returns (step: Step)
    requires palette.Length == PALETTE_CAPACITY && inputRow.Length == SIZE_BUFFER && palette != inputRow
    requires Configured(bridge.State())
    modifies bridge, palette, inputRow
    ensures step == ImageStep(path, world, old(palette[..]), bridge.accelerator, old(bridge.received))
    ensures step.Processed? ==> palette[..] == step.palette
    ensures var words := if step.Processed? then step.words else [];
      && bridge.received == old(bridge.received) + words
      && bridge.accesses == old(bridge.accesses) + Exchanges(old(bridge.received), words, bridge.accelerator)
    ensures bridge.State().(inputRegister := old(bridge.inputRegister)) == old(bridge.State())
    ensures bridge.osCalls == old(bridge.osCalls)
  {
    assert old(bridge.received) + [] == old(bridge.received) && old(bridge.accesses) + [] == old(bridge.accesses);
    if |path| < 4 {
      return Abort(1);
    }
    var outputFileName := OutputName(path, FPGA_SUFFIX);
    if |outputFileName| >= |Basename(path)| + 30 {
      return Abort(1);
    }
    ghost var before := palette[..];
    var loaded := LoadBitmapFile(world.file, world.loadAllocates, palette);
    if loaded.None? {
      return Abort(1);
    }
    ghost var b := ParseBitmap(world.file.value).value;
    assert palette[..] == b.palette + before[|b.palette|..];
    var infoHeader, fileHeader, bitmapData := loaded.value.infoHeader, loaded.value.fileHeader, loaded.value.image;
    var written, words := FilterAndSave(bridge, bitmapData, infoHeader, fileHeader, palette, inputRow,
                                        world.dirCreated, world.opens);
    return Processed(palette[..], SaveImage(outputFileName, written), words);
  }

  /** Lines 83-136: the streaming loop into a fresh ROWS*COLS buffer, then
      SaveBitmapFile. */
  method FilterAndSave(bridge: FpgaBridge, bitmapData: array<byte>, infoHeader: InfoHeader, fileHeader: FileHeader,
                       palette: array<byte>, inputRow: array<byte>, dirCreated: bool, opens: bool)
    returns (written: Option<seq<byte>>, words: seq<Dword>)
    requires palette.Length == PALETTE_CAPACITY && inputRow.Length == SIZE_BUFFER
    requires palette != inputRow && bitmapData != inputRow && bitmapData != palette
    requires Configured(bridge.State())
    requires Fits(infoHeader, ImageWorld(None, false, dirCreated, opens))
    modifies bridge, inputRow
    ensures written == Written(Bitmap(fileHeader, infoHeader, [], old(bitmapData[..])),
                               ImageWorld(None, false, dirCreated, opens), palette[..], bridge.accelerator,
                               old(bridge.received))
    ensures words == SentWords(old(bitmapData[..]), infoHeader)
    ensures bridge.received == old(bridge.received) + words
    ensures bridge.accesses == old(bridge.accesses) + Exchanges(old(bridge.received), words, bridge.accelerator)
    ensures bridge.State().(inputRegister := old(bridge.inputRegister)) == old(bridge.State())
    ensures bridge.osCalls == old(bridge.osCalls)
    ensures bitmapData[..] == old(bitmapData[..])
  {
    var bytesPerPixel := infoHeader.biBitCount / 8;
    var cols := infoHeader.biWidth * bytesPerPixel;
    var rows := infoHeader.biHeight * bytesPerPixel;
    BufferGeometry(infoHeader);
    // malloc(ROWS*COLS) cannot meet a negative request; the loop then
    // stores nothing and the save reads nothing, so no byte is needed.
    var bitmapFinalImage := new byte[if rows * cols < 0 then 0 else rows * cols];
    ghost var base, history := bitmapFinalImage[..], bridge.received;
    assert Extent(infoHeader.biWidth, 1) == infoHeader.biWidth;
    StreamImage(bridge, bitmapData, inputRow, bitmapFinalImage, infoHeader.biWidth, infoHeader.biHeight, bytesPerPixel);
    words := SentWords(bitmapData[..], infoHeader);
    StreamedImageIs(base, bitmapData[..], infoHeader, bridge.accelerator, history);
    var newFile;
    newFile, written := SaveBitmapFileFpga(bitmapFinalImage, infoHeader, fileHeader, palette, dirCreated, opens);
  }

  /** The image loop of main (lines 41-149), with the bridge configured. */
  method ImageLoop(argv: seq<string>, world: nat -> World, bridge: FpgaBridge, palette: array<byte>, inputRow: array<byte>)
    returns (code: int, saves: seq<Effect>)
    requires 2 <= |argv|
    requires palette.Length == PALETTE_CAPACITY && inputRow.Length == SIZE_BUFFER && palette != inputRow
    requires Configured(bridge.State())
    modifies bridge, palette, inputRow
    ensures var r := RunFrom(argv, world, 2, old(palette[..]), bridge.accelerator, old(bridge.received));
      && code == r.code && saves == r.effects
      && bridge.received == old(bridge.received) + r.words
      && bridge.accesses == old(bridge.accesses) + Exchanges(old(bridge.received), r.words, bridge.accelerator)
    ensures bridge.State().(inputRegister := old(bridge.inputRegister)) == old(bridge.State())
    ensures bridge.osCalls == old(bridge.osCalls)
  {
    ghost var h0, a0 := bridge.received, bridge.accesses;
    ghost var words: seq<Dword> := [];
    ghost var whole := RunFrom(argv, world, 2, palette[..], bridge.accelerator, h0);
    assert [] + whole.effects == whole.effects && [] + whole.words == whole.words;
    assert h0 + [] == h0 && a0 + [] == a0;
    saves := [];
    var totalImg := 2;
    while totalImg < |argv|
      invariant 2 <= totalImg <= |argv|
      invariant Configured(bridge.State())
      invariant bridge.State().(inputRegister := old(bridge.inputRegister)) == old(bridge.State())
      invariant bridge.osCalls == old(bridge.osCalls)
      invariant bridge.received == h0 + words
      invariant bridge.accesses == a0 + Exchanges(h0, words, bridge.accelerator)
      invariant var r := RunFrom(argv, world, totalImg, palette[..], bridge.accelerator, bridge.received);
        whole == Run(r.code, saves + r.effects, words + r.words)
    {
      ghost var current, received := palette[..], bridge.received;
      var step := ProcessImage(argv[totalImg], world(totalImg), bridge, palette, inputRow);
      if step.Abort? {
        assert RunFrom(argv, world, totalImg, current, bridge.accelerator, received) == Run(step.code, [], []);
        assert saves + [] == saves && words + [] == words;
        return step.code, saves;
      }
      ghost var rest := RunFrom(argv, world, totalImg + 1, palette[..], bridge.accelerator, bridge.received);
      Associative(saves, [step.effect], rest.effects);
      Associative(words, step.words, rest.words);
      Associative(h0, words, step.words);
      Associative(a0, Exchanges(h0, words, bridge.accelerator), Exchanges(h0 + words, step.words, bridge.accelerator));
      ExchangesAppend(h0, words, step.words, bridge.accelerator);
      saves := saves + [step.effect];
      words := words + step.words;
      totalImg := totalImg + 1;
    }
    assert saves + [] == saves && words + [] == words;
    return 0, saves;
  }

  /** main(argc, argv): the argument check, the prologue, configure_fpga,
      the image loop over argv[2..argc-1] and cleanup_fpga; the palette and
      input_row are the program's globals. */
  method FpgaMain(argv: seq<string>, world: nat -> World, openResult: int, mapResult: Mapping,
                  bridge: FpgaBridge, palette: array<byte>, inputRow: array<byte>)
    returns (code: int, effects: seq<Effect>)
    requires openResult >= -1 && mapResult != Null
    requires palette.Length == PALETTE_CAPACITY && inputRow.Length == SIZE_BUFFER && palette != inputRow
    modifies bridge, palette, inputRow
    ensures var r := Program(argv, world, openResult, mapResult, old(palette[..]), bridge.accelerator,
                             old(bridge.received));
      && code == r.code && effects == r.effects
      && bridge.received == old(bridge.received) + r.words
      && bridge.accesses == old(bridge.accesses) + Exchanges(old(bridge.received), r.words, bridge.accelerator)
    ensures ArgumentsAccepted(argv) ==>
      bridge.osCalls == old(bridge.osCalls) + ConfigureCalls(openResult, mapResult)
        + (if code == 0 then CleanupCalls(ConfigureState(old(bridge.State()), openResult, mapResult)) else [])
    ensures code == 0 ==> bridge.lwBridgeBase == Null && bridge.fd == -1
  {
    assert old(bridge.received) + [] == old(bridge.received) && old(bridge.accesses) + [] == old(bridge.accesses);
    if |argv| > 5 || |argv| < 3 || (argv[1] != "-o" && argv[1] != "-w") {
      return 1, [];
    }
    effects := [];
    if argv[1] == "-o" {
      effects := effects + [RedirectOutput];
    }
    effects := effects + [MakeDirectory("output.txt")];
    var status := bridge.ConfigureFpga(openResult, mapResult);
    effects := effects + [ConfigureBridge];
    if status != 0 {
      return -1, effects;
    }
    assert effects == Prologue(argv) + [ConfigureBridge];
    ConfigureOutcome(old(bridge.State()), openResult, mapResult);
    var saves;
    code, saves := ImageLoop(argv, world, bridge, palette, inputRow);
    effects := effects + saves;
    if code != 0 {
      return code, effects;
    }
    bridge.CleanupFpga();
    effects := effects + [ReleaseBridge];
    return 0, effects;
  }
}
