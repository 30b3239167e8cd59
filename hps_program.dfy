/** The main of the software-only program: after the argument check it
    optionally redirects standard output, creates "output", and then takes
    the images argv[2], argv[3], ... in order, each through
    LoadBitmapFile -> Sobel -> SaveBitmapFile. An invalid input name or a
    failed load ends the run with 1, a failed allocation of the output
    buffer ends it with 0; the remaining images are not touched. The file
    contents and the outcome of every allocation and fopen are what the
    system answers, one ImageWorld per iteration. */
module HpsProgram {
  import opened Bytes
  import opened Optional
  import opened BmpLayout
  import opened BitmapCodec
  import opened SobelEngine
  import opened CommandLine
  import opened PixelLayout

  /** What the system answers during one iteration: the input file's bytes
      (None when fopen fails), whether the pixel buffer of the load, the
      output buffer and the line buffer of the save can be allocated, and
      whether the output file can be opened. */
  datatype ImageWorld = ImageWorld(file: Option<seq<byte>>, loadAllocates: bool,
                                   outputAllocates: bool, opens: bool, lineAllocates: bool)

  /** One iteration: the run stops with an exit code, or the image was saved
      and the global palette holds what its load left there. */
  datatype Step = Abort(code: int) | Processed(palette: seq<byte>, effect: Effect)

  /** A whole run: its exit code and its effects in order. */
  datatype Run = Run(code: int, effects: seq<Effect>)

  /** What the program takes for granted about an image it opens: the file
      holds the parts its headers point to, and either the output buffer's
      size ROWS*COLS*BYTES_PER_PIXEL is negative (a top-down bitmap, whose
      height is negative), or the header's geometry keeps Sobel and the save
      inside the buffers of biSizeImage and width*height*bpp bytes (the
      program does not check either). */
  predicate Processable(world: ImageWorld)
  {
    world.file.Some? ==>
      Loadable(world.file.value)
      && (ParseBitmap(world.file.value).Some? ==>
            var ih := ParseBitmap(world.file.value).value.infoHeader;
            Fits(ih) || NegativeRequest(ih))
  }

  /** The int ROWS * COLS * BYTES_PER_PIXEL passed to malloc is negative
      (and does not overflow). Converted to size_t it asks for 2^31 bytes or
      more, which malloc cannot give on the board's 32-bit processor. */
  predicate NegativeRequest(ih: InfoHeader)
  {
    -0x8000_0000 <= ih.biHeight * ih.biWidth * BytesPerPixel(ih) < 0
  }

  predicate Fits(ih: InfoHeader)
  {
    HpsSavable(ih) && UnpaddedSize(ih) <= ih.biSizeImage
  }

  /** Under Fits the requested size is not negative, so Fits and
      NegativeRequest never hold together, and it fits in an int, as does
      the width*height*bytesPerPixel Sobel computes. */
  lemma RequestSign(ih: InfoHeader)
    requires Fits(ih)
    ensures 0 <= ih.biHeight * ih.biWidth * BytesPerPixel(ih) < 0x8000_0000 && !NegativeRequest(ih)
    ensures ih.biWidth * ih.biHeight * BytesPerPixel(ih) < 0x8000_0000
  {
    var w: int, h: int, bpp := ih.biWidth, ih.biHeight, BytesPerPixel(ih);
    MulMonotone(0, h * w, bpp);
    MulMonotone(RowLength(ih), RoundUp4(RowLength(ih)), h);
    ImageSize(w, h, bpp);
    assert h * w * bpp == h * (w * bpp);
  }

  /** The answers the program can be given: a missing file qualifies. */
  type World = w: ImageWorld | Processable(w) witness ImageWorld(None, false, false, false, false)

  /** The output buffer after Sobel(bitmapData, bitmapFinalImage, biWidth,
      biHeight, biBitCount / 8): the filtered image, or nothing when a
      dimension is zero and the buffer is empty. */
  function FilteredImage(pixels: seq<byte>, ih: InfoHeader): (r: seq<byte>)
    requires ih.biWidth >= 0 && ih.biHeight >= 0 && UnpaddedSize(ih) <= |pixels|
    ensures |r| == UnpaddedSize(ih)
    ensures ih.biWidth > 0 && ih.biHeight > 0 && BytesPerPixel(ih) > 0 ==>
      r == SobelImage(pixels, ih.biWidth, ih.biHeight, BytesPerPixel(ih))
  {
    var w, h, bpp := ih.biWidth, ih.biHeight, BytesPerPixel(ih);
    ImageSize(w, h, bpp);
    if w > 0 && h > 0 && bpp > 0 then SobelImage(pixels, w, h, bpp) else []
  }

  lemma ImageSize(w: nat, h: nat, bpp: nat)
    ensures h * (w * bpp) == w * h * bpp
    ensures w * h * bpp == 0 <==> w == 0 || h == 0 || bpp == 0
  {
  }

  /** One iteration of the image loop (lines 47-108) for input path `path`,
      starting from the global palette `palette`. */
  function ImageStep(path: string, world: ImageWorld, palette: seq<byte>): Step
    requires |palette| == PALETTE_CAPACITY && Processable(world)
  {
    if |path| < 4 || NameTooLong(path, HPS_SUFFIX) then Abort(1)
    else if world.file.None? || ParseBitmap(world.file.value).None? || !world.loadAllocates then Abort(1)
    else
      var b := ParseBitmap(world.file.value).value;
      var palette' := b.palette + palette[|b.palette|..];
      FilterStep(OutputName(path, HPS_SUFFIX), b.infoHeader, b.pixels, world, palette')
  }

  /** The rest of an iteration once the image is loaded (lines 88-105): the
      output buffer of ROWS*COLS*BYTES_PER_PIXEL bytes, Sobel, and the save
      under `name`, with the palette the load left. */
  function FilterStep(name: string, ih: InfoHeader, pixels: seq<byte>, world: ImageWorld, palette: seq<byte>): Step
    requires |palette| == PALETTE_CAPACITY && (Fits(ih) || NegativeRequest(ih)) && |pixels| == ih.biSizeImage
  {
    if NegativeRequest(ih) || !world.outputAllocates then Abort(0)
    else
      var image := FilteredImage(pixels, ih);
      var written :=
        if !world.opens then None
        else if !world.lineAllocates then Some(HpsPrologue(palette, ih))
        else Some(HpsFileBytes(palette, ih, image));
      Processed(palette, SaveImage(name, written))
  }

  /** The image loop from argv[t] on. */
  function RunFrom(argv: seq<string>, world: nat -> World, t: nat, palette: seq<byte>): Run
    requires |palette| == PALETTE_CAPACITY
    decreases |argv| - t
  {
    if t >= |argv| then Run(0, [])
    else
      match ImageStep(argv[t], world(t), palette)
      case Abort(code) => Run(code, [])
      case Processed(palette', effect) =>
        var rest := RunFrom(argv, world, t + 1, palette');
        Run(rest.code, [effect] + rest.effects)
  }

  /** The effects before the image loop. */
  function Prologue(argv: seq<string>): seq<Effect>
    requires ArgumentsAccepted(argv)
  {
    (if RedirectsOutput(argv) then [RedirectOutput] else []) + [MakeDirectory("output")]
  }

  /** A whole run of main, from the initial palette. */
  function Program(argv: seq<string>, world: nat -> World, palette: seq<byte>): Run
    requires |palette| == PALETTE_CAPACITY
  {
    if !ArgumentsAccepted(argv) then Run(1, [])
    else
      var r := RunFrom(argv, world, 2, palette);
      Run(r.code, Prologue(argv) + r.effects)
  }

  // ---------------------------------------------------------------------
  // What a run does

  /** Why an iteration stops the run: 1 for an input path shorter than four
      characters or a failed load (no file, not a bitmap, no memory), 0 for
      a failed allocation of the output buffer, which always fails for a
      negative size. */
  predicate StopsWith(path: string, world: ImageWorld, code: int)
    requires Processable(world)
  {
    var loadFails := world.file.None? || ParseBitmap(world.file.value).None? || !world.loadAllocates;
    (code == 1 && (|path| < 4 || loadFails))
    || (code == 0 && |path| >= 4 && !loadFails
        && (NegativeRequest(ParseBitmap(world.file.value).value.infoHeader) || !world.outputAllocates))
  }

  /** An iteration either stops for one of the reasons of StopsWith or saves
      the image under its output name. */
  lemma StepOutcome(path: string, world: ImageWorld, palette: seq<byte>)
    requires |palette| == PALETTE_CAPACITY && Processable(world)
    ensures ImageStep(path, world, palette).Abort? ==>
      StopsWith(path, world, ImageStep(path, world, palette).code)
    ensures ImageStep(path, world, palette).Processed? ==>
      && !StopsWith(path, world, 0) && !StopsWith(path, world, 1)
      && ImageStep(path, world, palette).effect.SaveImage?
      && ImageStep(path, world, palette).effect.name == OutputName(path, HPS_SUFFIX)
      && |ImageStep(path, world, palette).palette| == PALETTE_CAPACITY
  {
    NameAlwaysFits(path, HPS_SUFFIX);
  }

  /** A top-down bitmap (negative height) loads, but its output buffer
      cannot be allocated: the run ends with 0 at that image, with nothing
      saved for it. */
  lemma TopDownStopsWithZero(path: string, world: ImageWorld, palette: seq<byte>)
    requires |palette| == PALETTE_CAPACITY && Processable(world)
    requires |path| >= 4 && world.file.Some? && world.loadAllocates
    requires ParseBitmap(world.file.value).Some?
    requires ParseBitmap(world.file.value).value.infoHeader.biHeight < 0
    ensures ImageStep(path, world, palette) == Abort(0)
  {
    NameAlwaysFits(path, HPS_SUFFIX);
  }

  /** The loop saves the images in argv order, one SaveImage each, named
      after its input, and ends with 0 once the last image is saved. */
  lemma {:induction false} RunFromSaves(argv: seq<string>, world: nat -> World, t: nat, palette: seq<byte>)
    requires |palette| == PALETTE_CAPACITY && t <= |argv|
    ensures var r := RunFrom(argv, world, t, palette);
      && SavesOf(r.effects, argv[t..], HPS_SUFFIX)
      && (t + |r.effects| == |argv| ==> r.code == 0)
    decreases |argv| - t
  {
    if t < |argv| {
      StepOutcome(argv[t], world(t), palette);
      match ImageStep(argv[t], world(t), palette)
      case Abort(code) =>
      case Processed(palette', effect) =>
        RunFromSaves(argv, world, t + 1, palette');
        var rest := RunFrom(argv, world, t + 1, palette');
        assert ([effect] + rest.effects)[1..] == rest.effects;
        assert argv[t..][1..] == argv[t + 1..];
    }
  }

  /** A run that ends before the last image stopped at the first image not
      saved, for the reason its exit code gives. */
  lemma {:induction false} RunFromStops(argv: seq<string>, world: nat -> World, t: nat, palette: seq<byte>)
    requires |palette| == PALETTE_CAPACITY && t <= |argv|
    ensures StopsAfter(RunFrom(argv, world, t, palette), argv, world, t)
    decreases |argv| - t
  {
    if t < |argv| {
      var step := ImageStep(argv[t], world(t), palette);
      StepOutcome(argv[t], world(t), palette);
      RunFromStep(argv, world, t, palette);
      if step.Processed? {
        RunFromStops(argv, world, t + 1, step.palette);
        StopsAfterShift(RunFrom(argv, world, t + 1, step.palette), step.effect, argv, world, t);
      }
    }
  }

  /** The loop at argv[t]: it stops with that image's code, or saves the
      image and goes on with the next one. */
  lemma RunFromStep(argv: seq<string>, world: nat -> World, t: nat, palette: seq<byte>)
    requires |palette| == PALETTE_CAPACITY && t < |argv|
    ensures var step := ImageStep(argv[t], world(t), palette);
      && (step.Abort? ==> RunFrom(argv, world, t, palette) == Run(step.code, []))
      && (step.Processed? ==>
            var rest := RunFrom(argv, world, t + 1, step.palette);
            RunFrom(argv, world, t, palette) == Run(rest.code, [step.effect] + rest.effects))
  {
  }

  /** The saves of run r start at argv[t]; if they stop short of the end,
      the image after the last save is why. */
  predicate StopsAfter(r: Run, argv: seq<string>, world: nat -> World, t: nat)
  {
    t + |r.effects| < |argv| ==> StopsWith(argv[t + |r.effects|], world(t + |r.effects|), r.code)
  }

  lemma StopsAfterShift(r: Run, effect: Effect, argv: seq<string>, world: nat -> World, t: nat)
    requires StopsAfter(r, argv, world, t + 1)
    ensures StopsAfter(Run(r.code, [effect] + r.effects), argv, world, t)
  {
    assert t + |[effect] + r.effects| == t + 1 + |r.effects|;
  }

  /** A rejected command line returns 1 and does nothing. An accepted one
      first redirects standard output (for "-o" only) and creates "output";
      then come the saves, one per image in argv order, and the exit code is
      0 when every image was saved, or else says why the first image left
      unsaved stopped the run. */
  lemma ProgramOrder(argv: seq<string>, world: nat -> World, palette: seq<byte>)
    requires |palette| == PALETTE_CAPACITY
    ensures !ArgumentsAccepted(argv) ==> Program(argv, world, palette) == Run(1, [])
    ensures ArgumentsAccepted(argv) ==>
      var r := Program(argv, world, palette);
      var saves := RunFrom(argv, world, 2, palette).effects;
      && r.effects == Prologue(argv) + saves
      && 2 + |saves| <= |argv|
      && (forall i :: 0 <= i < |saves| ==>
            saves[i].SaveImage? && saves[i].name == OutputName(argv[2 + i], HPS_SUFFIX))
      && (2 + |saves| == |argv| ==> r.code == 0)
      && (2 + |saves| < |argv| ==> StopsWith(argv[2 + |saves|], world(2 + |saves|), r.code))
  {
    if ArgumentsAccepted(argv) {
      RunFromSaves(argv, world, 2, palette);
      RunFromStops(argv, world, 2, palette);
      SavesOfAt(RunFrom(argv, world, 2, palette).effects, argv[2..], HPS_SUFFIX);
    }
  }

  /** Standard output is redirected exactly with "-o", and "output" is
      created right before the first save. */
  lemma PrologueEffects(argv: seq<string>, world: nat -> World, palette: seq<byte>)
    requires |palette| == PALETTE_CAPACITY && ArgumentsAccepted(argv)
    ensures var r := Program(argv, world, palette);
      && (RedirectOutput in r.effects <==> argv[1] == "-o")
      && r.effects[|Prologue(argv)| - 1] == MakeDirectory("output")
  {
    ProgramOrder(argv, world, palette);
    var saves := RunFrom(argv, world, 2, palette).effects;
    assert RedirectOutput !in saves by {
      forall i | 0 <= i < |saves|
        ensures saves[i] != RedirectOutput
      {
        assert saves[i].SaveImage?;
      }
    }
  }

  /** An image that gets through is saved with every pixel as Sobel computes
      it: when its rows are a multiple of four bytes long, loading the saved
      file gives back exactly the filtered image, with the headers the save
      computed. */
  lemma SavedImageReloads(path: string, world: ImageWorld, palette: seq<byte>)
    requires |palette| == PALETTE_CAPACITY && Processable(world)
    requires ImageStep(path, world, palette).Processed?
    requires world.opens && world.lineAllocates
    ensures var b := ParseBitmap(world.file.value).value;
      var written := ImageStep(path, world, palette).effect.written;
      && written.Some?
      && Loadable(written.value)
      && ParseBitmap(written.value).Some?
      && ParseBitmap(written.value).value.infoHeader == HpsInfoHeader(b.infoHeader)
      && (RowLength(b.infoHeader) % 4 == 0 ==>
            ParseBitmap(written.value).value.pixels == FilteredImage(b.pixels, b.infoHeader))
  {
    var b := ParseBitmap(world.file.value).value;
    var ih := b.infoHeader;
    var palette' := b.palette + palette[|b.palette|..];
    var image := FilteredImage(b.pixels, ih);
    HpsSaveReloads(palette', ih, image);
    if RowLength(ih) % 4 == 0 {
      HpsSaveKeepsAlignedPixels(palette', ih, image);
      assert image[..UnpaddedSize(ih)] == image;
    }
  }

  // ---------------------------------------------------------------------
  // main

  /** Lines 47-108: one image, from its path to the saved file. */
  method ProcessImage(path: string, world: ImageWorld, palette: array<byte>) returns (step: Step)
    requires palette.Length == PALETTE_CAPACITY && Processable(world)
    modifies palette
    ensures step == ImageStep(path, world, old(palette[..]))
    ensures step.Processed? ==> palette[..] == step.palette
  {
    if |path| < 4 {
      return Abort(1);
    }
    var outputFileName := OutputName(path, HPS_SUFFIX);
    if |outputFileName| >= |Basename(path)| + 30 {
      return Abort(1);
    }
    ghost var before := palette[..];
    var loaded := LoadBitmapFile(world.file, world.loadAllocates, palette);
    if loaded.None? {
      return Abort(1);
    }
    ghost var b := ParseBitmap(world.file.value).value;
    assert palette[..] == b.palette + before[|b.palette|..];
    var infoHeader, fileHeader, bitmapData := loaded.value.infoHeader, loaded.value.fileHeader, loaded.value.image;
    step := FilterAndSave(outputFileName, bitmapData, infoHeader, fileHeader, palette, world);
  }

  /** Lines 88-105: allocate the output buffer (returning 0 when malloc
      fails), run Sobel into it and save it. */
  method FilterAndSave(outputFileName: string, bitmapData: array<byte>, infoHeader: InfoHeader, fileHeader: FileHeader,
                       palette: array<byte>, world: ImageWorld) returns (step: Step)
    requires palette.Length == PALETTE_CAPACITY && palette != bitmapData
    requires (Fits(infoHeader) || NegativeRequest(infoHeader)) && bitmapData.Length == infoHeader.biSizeImage
    ensures step == FilterStep(outputFileName, infoHeader, bitmapData[..], world, palette[..])
  {
    var bytesPerPixel := infoHeader.biBitCount / 8;
    var cols := infoHeader.biWidth;
    var rows := infoHeader.biHeight;
    var size := rows * cols * bytesPerPixel;
    if Fits(infoHeader) {
      RequestSign(infoHeader);
    }
    if size < 0 || !world.outputAllocates {
      return Abort(0);
    }
    assert Fits(infoHeader);
    ImageSize(cols, rows, bytesPerPixel);
    RequestSign(infoHeader);
    var bitmapFinalImage := new byte[size];
    Sobel(bitmapData, bitmapFinalImage, cols, rows, bytesPerPixel);
    assert bitmapFinalImage[..] == FilteredImage(bitmapData[..], infoHeader);
    var newInfo, newFile, written := SaveBitmapFileHps(Some(outputFileName), bitmapFinalImage, Some(infoHeader),
                                                       Some(fileHeader), palette, world.opens, world.lineAllocates);
    return Processed(palette[..], SaveImage(outputFileName, written));
  }

  /** The image loop of main (lines 45-112). */
  method ImageLoop(argv: seq<string>, world: nat -> World, palette: array<byte>) returns (code: int, saves: seq<Effect>)
    requires 2 <= |argv| && palette.Length == PALETTE_CAPACITY
    modifies palette
    ensures Run(code, saves) == RunFrom(argv, world, 2, old(palette[..]))
  {
    ghost var whole := RunFrom(argv, world, 2, palette[..]);
    assert [] + whole.effects == whole.effects;
    saves := [];
    var totalImg := 2;
    while totalImg < |argv|
      invariant 2 <= totalImg <= |argv|
      invariant var r := RunFrom(argv, world, totalImg, palette[..]);
        whole == Run(r.code, saves + r.effects)
    {
      ghost var current := palette[..];
      var step := ProcessImage(argv[totalImg], world(totalImg), palette);
      if step.Abort? {
        assert RunFrom(argv, world, totalImg, current) == Run(step.code, []);
        assert saves + [] == saves;
        return step.code, saves;
      }
      ghost var rest := RunFrom(argv, world, totalImg + 1, palette[..]);
      Associative(saves, [step.effect], rest.effects);
      saves := saves + [step.effect];
      totalImg := totalImg + 1;
    }
    assert saves + [] == saves;
    return 0, saves;
  }

  /** main(argc, argv): the argument check, the prologue and the image loop
      over argv[2..argc-1]; the palette is the program's global one. */
  method HpsMain(argv: seq<string>, world: nat -> World, palette: array<byte>)
    returns (code: int, effects: seq<Effect>)
    requires palette.Length == PALETTE_CAPACITY
    modifies palette
    ensures Run(code, effects) == Program(argv, world, old(palette[..]))
  {
    if |argv| > 5 || |argv| < 3 || (argv[1] != "-o" && argv[1] != "-w") {
      return 1, [];
    }
    effects := [];
    if argv[1] == "-o" {
      effects := effects + [RedirectOutput];
    }
    effects := effects + [MakeDirectory("output")];
    assert effects == Prologue(argv);
    var saves;
    code, saves := ImageLoop(argv, world, palette);
    effects := effects + saves;
  }
}
