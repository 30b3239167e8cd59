/** The software Sobel engine of the HPS-only program: a zero-filled output
    of width*height*bpp bytes whose interior pixels, channel by channel,
    hold 255 - min(255, |Gx*N| + |Gy*N|) for the 3x3 neighbourhood N. */
module SobelEngine {
  import opened PixelLayout
  import opened Bytes

  /** GX[i+1][j+1] and GY[i+1][j+1] weight the tap at (row+i, col+j). */
  const GX: seq<seq<int>> := [[1, 0, -1], [2, 0, -2], [1, 0, -1]]
  const GY: seq<seq<int>> := [[1, 2, 1], [0, 0, 0], [-1, -2, -1]]

  /** A 3x3 grid: a kernel, or the nine taps around a position. */
  predicate IsGrid(k: seq<seq<int>>)
  {
    |k| == 3 && forall i :: 0 <= i < 3 ==> |k[i]| == 3
  }

  /** What a tap contributes: its byte when the address passes the bounds
      check against the flat extent n, and nothing otherwise. */
  function TapValue(input: seq<byte>, n: int, idx: int): int
    requires n <= |input|
  {
    if 0 <= idx < n then input[idx] as int else 0
  }

  /** Address of the tap at offset (i, j) from (row, col, ch). */
  function TapIndex(row: int, col: int, ch: int, w: int, bpp: int, i: int, j: int): int
  {
    Offset(row + i, col + j, ch, w, bpp)
  }

  /** The bounds-checked taps around (row, col, ch): entry [i+1][j+1] for offset (i, j). */
  function Neighbourhood(input: seq<byte>, n: int, row: int, col: int, ch: int, w: int, bpp: int): (r: seq<seq<int>>)
    requires n <= |input|
    ensures IsGrid(r)
  {
    seq(3, r => seq(3, c => TapValue(input, n, TapIndex(row, col, ch, w, bpp, r - 1, c - 1))))
  }

  /** Sum of taps[r'][c'] * k[r'][c'] over the rows r' < r and the first c
      entries of row r, the order in which the loops accumulate. */
  function Partial(k: seq<seq<int>>, taps: seq<seq<int>>, r: nat, c: nat): int
    requires IsGrid(k) && IsGrid(taps) && r <= 3 && c <= 3 && (r == 3 ==> c == 0)
    decreases 4 * r + c
  {
    if c > 0 then Partial(k, taps, r, c - 1) + taps[r][c - 1] * k[r][c - 1]
    else if r > 0 then Partial(k, taps, r - 1, 3)
    else 0
  }

  function Convolve(k: seq<seq<int>>, taps: seq<seq<int>>): int
    requires IsGrid(k) && IsGrid(taps)
  {
    Partial(k, taps, 3, 0)
  }

  const ONES: seq<seq<int>> := [[1, 1, 1], [1, 1, 1], [1, 1, 1]]

  function Abs(x: int): nat
  {
    if x < 0 then -x else x
  }

  /** |sumX| + |sumY| clamped to 255. */
  function Magnitude(sumX: int, sumY: int): (m: int)
    ensures 0 <= m <= 255
    ensures Abs(sumX) + Abs(sumY) <= 255 ==> m == Abs(sumX) + Abs(sumY)
    ensures Abs(sumX) + Abs(sumY) > 255 ==> m == 255
  {
    if Abs(sumX) + Abs(sumY) > 255 then 255 else Abs(sumX) + Abs(sumY)
  }

  /** Strong edges are dark, flat regions white. */
  function EdgeValue(sumX: int, sumY: int): byte
  {
    (255 - Magnitude(sumX, sumY)) as byte
  }

  /** Interior pixels are those with 1 <= row < h-1 and 1 <= col < w-1. */
  predicate Interior(idx: int, w: nat, h: nat, bpp: nat)
    requires w * bpp > 0
  {
    1 <= RowOf(idx, w, bpp) < h - 1 && 1 <= ColOf(idx, w, bpp) < w - 1
  }

  /** The filtered value of byte idx of the output. */
  function SobelAt(input: seq<byte>, w: nat, h: nat, bpp: nat, idx: int): byte
    requires w > 0 && h > 0 && bpp > 0 && w * h * bpp <= |input|
  {
    if Interior(idx, w, h, bpp) then
      var taps := Neighbourhood(input, w * h * bpp, RowOf(idx, w, bpp), ColOf(idx, w, bpp), ChanOf(idx, w, bpp), w, bpp);
      EdgeValue(Convolve(GX, taps), Convolve(GY, taps))
    else
      0
  }

  /** The whole filtered image. */
  function SobelImage(input: seq<byte>, w: nat, h: nat, bpp: nat): (r: seq<byte>)
    requires w > 0 && h > 0 && bpp > 0 && w * h * bpp <= |input|
    ensures |r| == w * h * bpp
  {
    seq(w * h * bpp, idx => SobelAt(input, w, h, bpp, idx))
  }

  // ---------------------------------------------------------------------
  // Properties of the specification

  /** Both kernels sum to zero. */
  lemma KernelsBalanced()
    ensures IsGrid(GX) && IsGrid(GY) && IsGrid(ONES)
    ensures Convolve(GX, ONES) == 0 && Convolve(GY, ONES) == 0
  {
  }

  /** Convolving a constant neighbourhood scales the kernel's weight. */
  lemma {:induction false} ConvolveConstant(k: seq<seq<int>>, taps: seq<seq<int>>, v: int, r: nat, c: nat)
    requires IsGrid(k) && IsGrid(taps) && r <= 3 && c <= 3 && (r == 3 ==> c == 0)
    requires forall i, j :: 0 <= i < 3 && 0 <= j < 3 ==> taps[i][j] == v
    ensures IsGrid(ONES) && Partial(k, taps, r, c) == v * Partial(k, ONES, r, c)
    decreases 4 * r + c
  {
    if c > 0 {
      ConvolveConstant(k, taps, v, r, c - 1);
      assert taps[r][c - 1] == v && ONES[r][c - 1] == 1;
      Distribute(v, Partial(k, ONES, r, c - 1), k[r][c - 1]);
    } else if r > 0 {
      ConvolveConstant(k, taps, v, r - 1, 3);
    }
  }

  lemma Distribute(v: int, a: int, b: int)
    ensures v * (a + 1 * b) == v * a + v * b
  {
  }

  /** For an interior position every tap address lies inside the flat
      extent, so the bounds check never excludes a tap, and every tap reads
      the same channel as the centre. */
  lemma InteriorTapsInRange(w: nat, h: nat, bpp: nat, row: int, col: int, ch: int, i: int, j: int)
    requires w > 0 && h > 0 && bpp > 0
    requires 1 <= row < h - 1 && 1 <= col < w - 1 && 0 <= ch < bpp && -1 <= i <= 1 && -1 <= j <= 1
    ensures 0 <= TapIndex(row, col, ch, w, bpp, i, j) < w * h * bpp
    ensures ChanOf(TapIndex(row, col, ch, w, bpp, i, j), w, bpp) == ch
  {
    var r, c := row + i, col + j;
    assert 0 <= r < h && 0 <= c < w;
    OffsetInExtent(r, c, ch, w, h, bpp);
    assert ChanOf(Offset(r, c, ch, w, bpp), w, bpp) == ch by {
      OffsetDecodes(r, c, ch, w, bpp);
    }
  }

  /** An interior byte whose 3x3 neighbourhood (in its channel) is uniform is 255. */
  lemma FlatFieldIsWhite(input: seq<byte>, w: nat, h: nat, bpp: nat, idx: int, v: byte)
    requires w > 0 && h > 0 && bpp > 0 && w * h * bpp <= |input|
    requires Interior(idx, w, h, bpp)
    requires forall i, j :: -1 <= i <= 1 && -1 <= j <= 1 ==>
      var a := TapIndex(RowOf(idx, w, bpp), ColOf(idx, w, bpp), ChanOf(idx, w, bpp), w, bpp, i, j);
      0 <= a < |input| && input[a] == v
    ensures SobelAt(input, w, h, bpp, idx) == 255
  {
    var row, col, ch := RowOf(idx, w, bpp), ColOf(idx, w, bpp), ChanOf(idx, w, bpp);
    FlatNeighbourhood(input, w, h, bpp, idx, v);
    ConstantTapsWhite(Neighbourhood(input, w * h * bpp, row, col, ch, w, bpp), v as int);
  }

  /** The taps of such a byte all read v. */
  lemma FlatNeighbourhood(input: seq<byte>, w: nat, h: nat, bpp: nat, idx: int, v: byte)
    requires w > 0 && h > 0 && bpp > 0 && w * h * bpp <= |input|
    requires Interior(idx, w, h, bpp)
    requires forall i, j :: -1 <= i <= 1 && -1 <= j <= 1 ==>
      var a := TapIndex(RowOf(idx, w, bpp), ColOf(idx, w, bpp), ChanOf(idx, w, bpp), w, bpp, i, j);
      0 <= a < |input| && input[a] == v
    ensures var taps := Neighbourhood(input, w * h * bpp, RowOf(idx, w, bpp), ColOf(idx, w, bpp),
                                      ChanOf(idx, w, bpp), w, bpp);
      forall r, c :: 0 <= r < 3 && 0 <= c < 3 ==> taps[r][c] == v as int
  {
    var row, col, ch := RowOf(idx, w, bpp), ColOf(idx, w, bpp), ChanOf(idx, w, bpp);
    DecodedOffset(idx, w, bpp);
    var taps := Neighbourhood(input, w * h * bpp, row, col, ch, w, bpp);
    forall r, c | 0 <= r < 3 && 0 <= c < 3
      ensures taps[r][c] == v as int
    {
      InteriorTapsInRange(w, h, bpp, row, col, ch, r - 1, c - 1);
    }
  }

  /** Both kernels weigh to zero, so a constant neighbourhood gives
      sumX = sumY = 0 and the output byte 255. */
  lemma ConstantTapsWhite(taps: seq<seq<int>>, v: int)
    requires IsGrid(taps)
    requires forall r, c :: 0 <= r < 3 && 0 <= c < 3 ==> taps[r][c] == v
    ensures EdgeValue(Convolve(GX, taps), Convolve(GY, taps)) == 255
  {
    KernelsBalanced();
    ConvolveConstant(GX, taps, v, 3, 0);
    ConvolveConstant(GY, taps, v, 3, 0);
  }

  /** A hard vertical edge (right column 255, the rest 0) saturates Gx:
      sumX = -1020, sumY = 0, and the output byte is 0. */
  lemma VerticalEdgeResponse()
    ensures Convolve(GX, [[0, 0, 255], [0, 0, 255], [0, 0, 255]]) == -1020
    ensures Convolve(GY, [[0, 0, 255], [0, 0, 255], [0, 0, 255]]) == 0
    ensures EdgeValue(-1020, 0) == 0
  {
  }

  /** Rows 0 and h-1 and columns 0 and w-1 are 0 in every channel; an image
      narrower or lower than 3 pixels filters to all zeros. */
  lemma BorderIsZero(input: seq<byte>, w: nat, h: nat, bpp: nat, idx: int)
    requires w > 0 && h > 0 && bpp > 0 && w * h * bpp <= |input| && 0 <= idx < w * h * bpp
    requires RowOf(idx, w, bpp) == 0 || RowOf(idx, w, bpp) == h - 1
          || ColOf(idx, w, bpp) == 0 || ColOf(idx, w, bpp) == w - 1 || w < 3 || h < 3
    ensures SobelAt(input, w, h, bpp, idx) == 0
  {
  }

  // ---------------------------------------------------------------------
  // The engine

  /** The address the source computes for offset (i, j) is that tap's address. */
  lemma TapAddress(row: int, col: int, ch: int, width: int, bpp: int, i: int, j: int)
    ensures (row + i) * width * bpp + (col + j) * bpp + ch == TapIndex(row, col, ch, width, bpp, i, j)
  {
  }

  /** The two inner loops of Sobel: accumulate the bounds-checked taps of
      (row, col, ch) against Gx and Gy. */
  method KernelSums(input: array<byte>, n: int, row: int, col: int, ch: int, width: int, bpp: int)
    returns (sumX: int, sumY: int)
    requires 0 <= n <= input.Length
    ensures sumX == Convolve(GX, Neighbourhood(input[..], n, row, col, ch, width, bpp))
    ensures sumY == Convolve(GY, Neighbourhood(input[..], n, row, col, ch, width, bpp))
  {
    ghost var taps := Neighbourhood(input[..], n, row, col, ch, width, bpp);
    assert IsGrid(GX) && IsGrid(GY);
    sumX, sumY := 0, 0;
    var i := -1;
    while i <= 1
      invariant -1 <= i <= 2
      invariant sumX == Partial(GX, taps, i + 1, 0)
      invariant sumY == Partial(GY, taps, i + 1, 0)
    {
      var j := -1;
      while j <= 1
        invariant -1 <= j <= 2
        invariant sumX == Partial(GX, taps, i + 1, j + 1)
        invariant sumY == Partial(GY, taps, i + 1, j + 1)
      {
        var idx := (row + i) * width * bpp + (col + j) * bpp + ch;
        TapAddress(row, col, ch, width, bpp, i, j);
        assert taps[i + 1][j + 1] == TapValue(input[..], n, idx);
        if idx >= 0 && idx < n {
          sumX := sumX + input[idx] as int * GX[i + 1][j + 1];
          sumY := sumY + input[idx] as int * GY[i + 1][j + 1];
        }
        j := j + 1;
      }
      i := i + 1;
    }
  }

  /** Decoded position of idx precedes (row, col, ch) in the loops' order. */
  predicate Visited(idx: int, w: nat, h: nat, bpp: nat, row: int, col: int, ch: int)
    requires w * bpp > 0
  {
    var r, c, k := RowOf(idx, w, bpp), ColOf(idx, w, bpp), ChanOf(idx, w, bpp);
    Interior(idx, w, h, bpp) && (r < row || (r == row && (c < col || (c == col && k < ch))))
  }

  /** Output byte idx once the loops have reached (row, col, ch). */
  function Filled(input: seq<byte>, w: nat, h: nat, bpp: nat, idx: int, row: int, col: int, ch: int): byte
    requires w > 0 && h > 0 && bpp > 0 && w * h * bpp <= |input|
  {
    if Visited(idx, w, h, bpp, row, col, ch) then SobelAt(input, w, h, bpp, idx) else 0
  }

  lemma VisitStep(idx: int, w: nat, h: nat, bpp: nat, row: int, col: int, ch: int)
    requires w > 0 && h > 0 && bpp > 0
    requires 1 <= row < h - 1 && 1 <= col < w - 1 && 0 <= ch < bpp
    ensures Visited(idx, w, h, bpp, row, col, ch + 1)
      <==> Visited(idx, w, h, bpp, row, col, ch) || idx == Offset(row, col, ch, w, bpp)
  {
    DecodedOffset(idx, w, bpp);
    OffsetDecodes(row, col, ch, w, bpp);
  }

  /** The loop invariant of Sobel: the first w*h*bpp bytes of out hold the
      filtered value at every visited position and 0 elsewhere. */
  predicate FilledUpTo(out: seq<byte>, input: seq<byte>, w: nat, h: nat, bpp: nat, row: int, col: int, ch: int)
    requires w > 0 && h > 0 && bpp > 0 && w * h * bpp <= |input|
  {
    w * h * bpp <= |out|
    && forall q :: 0 <= q < w * h * bpp ==> out[q] == Filled(input, w, h, bpp, q, row, col, ch)
  }

  /** After the memset nothing is visited yet. */
  lemma FillStart(out: seq<byte>, input: seq<byte>, w: nat, h: nat, bpp: nat)
    requires w > 0 && h > 0 && bpp > 0 && w * h * bpp <= |input| && w * h * bpp <= |out|
    requires forall q :: 0 <= q < w * h * bpp ==> out[q] == 0
    ensures FilledUpTo(out, input, w, h, bpp, 1, 1, 0)
  {
    forall q | 0 <= q < w * h * bpp
      ensures !Visited(q, w, h, bpp, 1, 1, 0)
    {
      DecodedOffset(q, w, bpp);
    }
  }

  /** Storing the filtered value of (row, col, ch) advances the invariant by one channel. */
  lemma FillStep(out: seq<byte>, input: seq<byte>, w: nat, h: nat, bpp: nat, row: int, col: int, ch: int, v: byte)
    requires w > 0 && h > 0 && bpp > 0 && w * h * bpp <= |input|
    requires 1 <= row < h - 1 && 1 <= col < w - 1 && 0 <= ch < bpp
    requires FilledUpTo(out, input, w, h, bpp, row, col, ch)
    requires v == EdgeValue(Convolve(GX, Neighbourhood(input, w * h * bpp, row, col, ch, w, bpp)),
                            Convolve(GY, Neighbourhood(input, w * h * bpp, row, col, ch, w, bpp)))
    ensures 0 <= Offset(row, col, ch, w, bpp) < w * h * bpp
    ensures FilledUpTo(out[Offset(row, col, ch, w, bpp) := v], input, w, h, bpp, row, col, ch + 1)
  {
    var c := Offset(row, col, ch, w, bpp);
    OffsetInExtent(row, col, ch, w, h, bpp);
    assert SobelAt(input, w, h, bpp, c) == v by {
      OffsetDecodes(row, col, ch, w, bpp);
    }
    var out' := out[c := v];
    forall q | 0 <= q < w * h * bpp
      ensures out'[q] == Filled(input, w, h, bpp, q, row, col, ch + 1)
    {
      VisitStep(q, w, h, bpp, row, col, ch);
    }
  }

  /** All channels of (row, col) done: move to the next column. */
  lemma FillNextColumn(out: seq<byte>, input: seq<byte>, w: nat, h: nat, bpp: nat, row: int, col: int)
    requires w > 0 && h > 0 && bpp > 0 && w * h * bpp <= |input|
    requires FilledUpTo(out, input, w, h, bpp, row, col, bpp)
    ensures FilledUpTo(out, input, w, h, bpp, row, col + 1, 0)
  {
    forall q | 0 <= q < w * h * bpp
      ensures Visited(q, w, h, bpp, row, col, bpp) == Visited(q, w, h, bpp, row, col + 1, 0)
    {
      DecodedOffset(q, w, bpp);
    }
  }

  /** All interior columns of row done: move to the next row. */
  lemma FillNextRow(out: seq<byte>, input: seq<byte>, w: nat, h: nat, bpp: nat, row: int, col: int)
    requires w > 0 && h > 0 && bpp > 0 && w * h * bpp <= |input|
    requires col >= 1 && col >= w - 1
    requires FilledUpTo(out, input, w, h, bpp, row, col, 0)
    ensures FilledUpTo(out, input, w, h, bpp, row + 1, 1, 0)
  {
    forall q | 0 <= q < w * h * bpp
      ensures Visited(q, w, h, bpp, row, col, 0) == Visited(q, w, h, bpp, row + 1, 1, 0)
    {
      DecodedOffset(q, w, bpp);
    }
  }

  /** Once every interior row is done the output is the filtered image. */
  lemma FillDone(out: seq<byte>, input: seq<byte>, w: nat, h: nat, bpp: nat, row: int)
    requires w > 0 && h > 0 && bpp > 0 && w * h * bpp <= |input|
    requires row >= 1 && row >= h - 1
    requires FilledUpTo(out, input, w, h, bpp, row, 1, 0)
    ensures out[..w * h * bpp] == SobelImage(input, w, h, bpp)
  {
    forall q | 0 <= q < w * h * bpp
      ensures out[..w * h * bpp][q] == SobelImage(input, w, h, bpp)[q]
    {
      DecodedOffset(q, w, bpp);
    }
  }

  predicate Accepts(input: array?<byte>, output: array?<byte>, width: int, height: int, bytesPerPixel: int)
  {
    input != null && output != null && width > 0 && height > 0 && bytesPerPixel > 0
  }

  /** Sobel(input, output, width, height, bytesPerPixel). With a NULL buffer or a
      non-positive dimension it returns at once; otherwise the first
      width*height*bytesPerPixel bytes of output become the filtered image and
      nothing else changes. The caller keeps width*height*bytesPerPixel, and
      with it every index the C computes, within an int. */
  method Sobel(input: array?<byte>, output: array?<byte>, width: int, height: int, bytesPerPixel: int)
    requires Accepts(input, output, width, height, bytesPerPixel) ==>
      input != output && width * height * bytesPerPixel < 0x8000_0000
      && width * height * bytesPerPixel <= input.Length
      && width * height * bytesPerPixel <= output.Length
    modifies output
    ensures !Accepts(input, output, width, height, bytesPerPixel) ==>
      output == null || output[..] == old(output[..])
    ensures Accepts(input, output, width, height, bytesPerPixel) ==>
      var n := width * height * bytesPerPixel;
      && output[..n] == SobelImage(input[..], width, height, bytesPerPixel)
      && output[n..] == old(output[n..])
    ensures input != null ==> input[..] == old(input[..])
  {
    if input == null || output == null || width <= 0 || height <= 0 || bytesPerPixel <= 0 {
      return;
    }
    var n := width * height * bytesPerPixel;
    ClearOutput(output, n);
    FillStart(output[..], input[..], width, height, bytesPerPixel);
    var row := 1;
    while row < height - 1
      invariant 1 <= row && (height >= 2 ==> row <= height - 1)
      invariant FilledUpTo(output[..], input[..], width, height, bytesPerPixel, row, 1, 0)
      invariant output[n..] == old(output[n..])
    {
      FilterRow(input, output, width, height, bytesPerPixel, row);
      row := row + 1;
    }
    FillDone(output[..], input[..], width, height, bytesPerPixel, row);
  }

  /** The memset of the first n bytes of output. */
  method ClearOutput(output: array<byte>, n: int)
    requires 0 <= n <= output.Length
    modifies output
    ensures forall q :: 0 <= q < n ==> output[q] == 0
    ensures output[n..] == old(output[n..])
  {
    var z := 0;
    while z < n
      invariant 0 <= z <= n
      invariant forall q :: 0 <= q < z ==> output[q] == 0
      invariant output[n..] == old(output[n..])
    {
      output[z] := 0;
      z := z + 1;
    }
  }

  /** The col loop of one interior row. */
  method FilterRow(input: array<byte>, output: array<byte>, width: int, height: int, bytesPerPixel: int, row: int)
    requires input != output && width > 0 && height > 0 && bytesPerPixel > 0
    requires width * height * bytesPerPixel <= input.Length && width * height * bytesPerPixel <= output.Length
    requires 1 <= row < height - 1
    requires FilledUpTo(output[..], input[..], width, height, bytesPerPixel, row, 1, 0)
    modifies output
    ensures FilledUpTo(output[..], input[..], width, height, bytesPerPixel, row + 1, 1, 0)
    ensures output[width * height * bytesPerPixel..] == old(output[width * height * bytesPerPixel..])
  {
    var n := width * height * bytesPerPixel;
    var col := 1;
    while col < width - 1
      invariant 1 <= col && (width >= 2 ==> col <= width - 1)
      invariant FilledUpTo(output[..], input[..], width, height, bytesPerPixel, row, col, 0)
      invariant output[n..] == old(output[n..])
    {
      FilterPixel(input, output, width, height, bytesPerPixel, row, col);
      col := col + 1;
    }
    FillNextRow(output[..], input[..], width, height, bytesPerPixel, row, col);
  }

  /** The channel loop at one interior pixel. */
  method FilterPixel(input: array<byte>, output: array<byte>, width: int, height: int, bytesPerPixel: int,
                     row: int, col: int)
    requires input != output && width > 0 && height > 0 && bytesPerPixel > 0
    requires width * height * bytesPerPixel <= input.Length && width * height * bytesPerPixel <= output.Length
    requires 1 <= row < height - 1 && 1 <= col < width - 1
    requires FilledUpTo(output[..], input[..], width, height, bytesPerPixel, row, col, 0)
    modifies output
    ensures FilledUpTo(output[..], input[..], width, height, bytesPerPixel, row, col + 1, 0)
    ensures output[width * height * bytesPerPixel..] == old(output[width * height * bytesPerPixel..])
  {
    var n := width * height * bytesPerPixel;
    var channel := 0;
    while channel < bytesPerPixel
      invariant 0 <= channel <= bytesPerPixel
      invariant FilledUpTo(output[..], input[..], width, height, bytesPerPixel, row, col, channel)
      invariant output[n..] == old(output[n..])
    {
      FilterChannel(input, output, width, height, bytesPerPixel, row, col, channel);
      channel := channel + 1;
    }
    FillNextColumn(output[..], input[..], width, height, bytesPerPixel, row, col);
  }

  /** The body of the channel loop: output[centerIdx] := 255 - magnitude. */
  method FilterChannel(input: array<byte>, output: array<byte>, width: int, height: int, bytesPerPixel: int,
                       row: int, col: int, channel: int)
    requires input != output && width > 0 && height > 0 && bytesPerPixel > 0
    requires width * height * bytesPerPixel <= input.Length && width * height * bytesPerPixel <= output.Length
    requires 1 <= row < height - 1 && 1 <= col < width - 1 && 0 <= channel < bytesPerPixel
    requires FilledUpTo(output[..], input[..], width, height, bytesPerPixel, row, col, channel)
    modifies output
    ensures FilledUpTo(output[..], input[..], width, height, bytesPerPixel, row, col, channel + 1)
    ensures output[width * height * bytesPerPixel..] == old(output[width * height * bytesPerPixel..])
  {
    var n := width * height * bytesPerPixel;
    var centerIdx := row * width * bytesPerPixel + col * bytesPerPixel + channel;
    OffsetAsWritten(row, col, channel, width, bytesPerPixel);
    var sumX, sumY := KernelSums(input, n, row, col, channel, width, bytesPerPixel);
    var magnitude := Abs(sumX) + Abs(sumY);
    if magnitude > 255 {
      magnitude := 255;
    }
    ghost var before := output[..];
    FillStep(before, input[..], width, height, bytesPerPixel, row, col, channel, (255 - magnitude) as byte);
    output[centerIdx] := (255 - magnitude) as byte;
    assert output[..] == before[centerIdx := (255 - magnitude) as byte];
  }
}
