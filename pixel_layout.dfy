/** Row-major addressing of an unpadded pixel buffer, as both EdgeVision
    programs compute it: byte `ch` of pixel (row, col) in an image `w`
    pixels wide with `bpp` bytes per pixel sits at row*w*bpp + col*bpp + ch.
    The decoding functions invert that address. */
module PixelLayout {

  function Offset(row: int, col: int, ch: int, w: int, bpp: int): int
  {
    row * (w * bpp) + col * bpp + ch
  }

  /** The C expression row*w*bpp + col*bpp + ch associates to the left; it is the same address. */
  lemma OffsetAsWritten(row: int, col: int, ch: int, w: int, bpp: int)
    ensures row * w * bpp + col * bpp + ch == Offset(row, col, ch, w, bpp)
  {
  }

  function RowOf(idx: int, w: nat, bpp: nat): int
    requires w * bpp > 0
  {
    idx / (w * bpp)
  }

  function ColOf(idx: int, w: nat, bpp: nat): int
    requires w * bpp > 0
  {
    (idx % (w * bpp)) / bpp
  }

  function ChanOf(idx: int, w: nat, bpp: nat): int
    requires w * bpp > 0
  {
    (idx % (w * bpp)) % bpp
  }

  /** Euclidean division is determined by any quotient/remainder pair. */
  lemma DivModUnique(a: int, d: int, q: int, r: int)
    requires d > 0 && 0 <= r < d && a == q * d + r
    ensures a / d == q && a % d == r
  {
    var q', r' := a / d, a % d;
    assert (q - q') * d == r' - r;
    if q > q' {
      MulAtLeast(q - q', d);
    } else if q < q' {
      MulAtLeast(q' - q, d);
    }
  }

  lemma MulAtLeast(k: int, d: int)
    requires k >= 1 && d > 0
    ensures k * d >= d
  {
  }

  lemma MulStrict(a: int, b: int, c: int)
    requires 0 <= a < b && c > 0
    ensures a * c + c <= b * c
  {
    MulMonotone(a + 1, b, c);
    assert (a + 1) * c == a * c + c;
  }

  /** a*b as repeated addition. Loops keep their running products in this
      form, so that each step of the loop is a linear fact. */
  function Times(a: nat, b: nat): nat
  {
    if a == 0 then 0 else Times(a - 1, b) + b
  }

  lemma {:induction false} TimesIsProduct(a: nat, b: nat)
    ensures Times(a, b) == a * b
  {
    if a > 0 {
      TimesIsProduct(a - 1, b);
    }
  }

  lemma {:induction false} TimesMonotone(a: nat, b: nat, c: nat)
    requires a <= b
    ensures Times(a, c) <= Times(b, c)
    decreases b - a
  {
    if a < b {
      TimesMonotone(a, b - 1, c);
    }
  }

  /** Block a of c items ends no later than block b starts, for a < b. */
  lemma NextBlock(a: int, b: int, c: int)
    requires 0 <= a < b && c >= 0
    ensures a * c + c <= b * c
  {
    MulMonotone(a + 1, b, c);
    assert (a + 1) * c == a * c + c;
  }

  /** The bytes of one row: col*bpp + ch stays below w*bpp. */
  lemma InRowBound(col: int, ch: int, w: int, bpp: int)
    requires 0 <= col < w && 0 <= ch < bpp
    ensures 0 <= col * bpp + ch < w * bpp
  {
    MulStrict(col, w, bpp);
  }

  /** Decoding the address of (row, col, ch) gives back row, col and ch. */
  lemma OffsetDecodes(row: int, col: int, ch: int, w: nat, bpp: nat)
    requires 0 <= col < w && 0 <= ch < bpp
    ensures w * bpp > 0
    ensures RowOf(Offset(row, col, ch, w, bpp), w, bpp) == row
    ensures ColOf(Offset(row, col, ch, w, bpp), w, bpp) == col
    ensures ChanOf(Offset(row, col, ch, w, bpp), w, bpp) == ch
  {
    InRowBound(col, ch, w, bpp);
    DivModUnique(Offset(row, col, ch, w, bpp), w * bpp, row, col * bpp + ch);
    DivModUnique(col * bpp + ch, bpp, col, ch);
  }

  /** Every index is the address of its decoded (row, col, ch), and the
      decoded column and channel are in range. */
  lemma DecodedOffset(idx: int, w: nat, bpp: nat)
    requires w > 0 && bpp > 0
    ensures w * bpp > 0
    ensures Offset(RowOf(idx, w, bpp), ColOf(idx, w, bpp), ChanOf(idx, w, bpp), w, bpp) == idx
    ensures 0 <= ColOf(idx, w, bpp) < w && 0 <= ChanOf(idx, w, bpp) < bpp
  {
    var m := idx % (w * bpp);
    assert idx == RowOf(idx, w, bpp) * (w * bpp) + m;
    assert m == ColOf(idx, w, bpp) * bpp + ChanOf(idx, w, bpp);
  }

  lemma MulMonotone(a: int, b: int, c: int)
    requires 0 <= a <= b && c >= 0
    ensures a * c <= b * c
  {
  }

  /** An address lies in [0, h*w*bpp) exactly when its row lies in [0, h). */
  lemma OffsetInImage(row: int, col: int, ch: int, w: nat, h: nat, bpp: nat)
    requires 0 <= col < w && 0 <= ch < bpp
    ensures 0 <= Offset(row, col, ch, w, bpp) < h * (w * bpp) <==> 0 <= row < h
  {
    InRowBound(col, ch, w, bpp);
    if 0 <= row < h {
      MulStrict(row, h, w * bpp);
    } else if row < 0 {
      MulMonotone(1, -row, w * bpp);
    } else {
      MulMonotone(h, row, w * bpp);
    }
  }

  /** The address of an in-image position lies inside the flat extent w*h*bpp. */
  lemma OffsetInExtent(row: int, col: int, ch: int, w: nat, h: nat, bpp: nat)
    requires 0 <= row < h && 0 <= col < w && 0 <= ch < bpp
    ensures 0 <= Offset(row, col, ch, w, bpp) < w * h * bpp
  {
    OffsetInImage(row, col, ch, w, h, bpp);
    assert h * (w * bpp) == w * h * bpp;
  }

  /** The decoded row of an index inside an h-row image is inside [0, h). */
  lemma PositiveFactors(w: nat, bpp: nat)
    requires w * bpp > 0
    ensures w > 0 && bpp > 0
  {
  }

  lemma RowInImage(idx: int, w: nat, h: nat, bpp: nat)
    requires w > 0 && bpp > 0 && 0 <= idx < h * (w * bpp)
    ensures w * bpp > 0 && 0 <= RowOf(idx, w, bpp) < h
  {
    DecodedOffset(idx, w, bpp);
    OffsetInImage(RowOf(idx, w, bpp), ColOf(idx, w, bpp), ChanOf(idx, w, bpp), w, h, bpp);
  }
}
