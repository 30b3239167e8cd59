/** The image loop of the FPGA program's main: for every channel k, row i
    and pixel column j (stepping by the pixel size), a vertical window of
    three bytes of the same channel is gathered into input_row, packed into
    a word by prepareDataforTx, written to the accelerator and answered by
    one byte, which is stored at the window's centre index of the output
    buffer. COLS = width*bpp bytes per row and ROWS = height*bpp rows. */
module FpgaStreaming {
  import opened Bytes
  import opened BmpLayout
  import opened PixelLayout
  import opened WindowPacking
  import opened FpgaDriver

  /** The loop bound width*bpp (or height*bpp) as far as the loops see it:
      a bound that is not positive runs no iteration. */
  function Extent(n: int, bpp: nat): (r: nat)
    ensures n > 0 ==> r == n * bpp
    ensures n <= 0 ==> r == 0
  {
    if n > 0 then n * bpp else 0
  }

  /** The window built for row i and byte column c of an image whose pixel
      buffer is `data` (biSizeImage == |data| bytes). All three indices must
      lie in the buffer; otherwise the window is all zero. */
  function Window(data: seq<byte>, rows: int, cols: int, i: int, c: int): (w: seq<byte>)
    ensures |w| == SIZE_BUFFER
  {
    var prev, curr, next := (i - 1) * cols + c, i * cols + c, (i + 1) * cols + c;
    if 0 <= prev < |data| && 0 <= curr < |data| && 0 <= next < |data| then
      [if i == 0 then 0 else data[prev], data[curr], if i == rows - 1 then 0 else data[next]]
    else
      [0, 0, 0]
  }

  /** In the first row the previous index is negative, so the bounds check
      fails and the window is all zero: the `i == 0` case of the first tap
      is never reached. */
  lemma FirstRowWindowIsZero(data: seq<byte>, rows: int, cols: int, c: int)
    requires 0 <= c < cols
    ensures Window(data, rows, cols, 0, c) == [0, 0, 0]
  {
  }

  /** A window reads only the three bytes of column c in rows i-1, i and i+1
      (all of one channel), and the buffer's length. */
  lemma WindowIsLocal(data: seq<byte>, data': seq<byte>, rows: int, cols: int, i: int, c: int)
    requires |data| == |data'|
    requires 0 <= (i - 1) * cols + c < |data| ==> data[(i - 1) * cols + c] == data'[(i - 1) * cols + c]
    requires 0 <= i * cols + c < |data| ==> data[i * cols + c] == data'[i * cols + c]
    requires 0 <= (i + 1) * cols + c < |data| ==> data[(i + 1) * cols + c] == data'[(i + 1) * cols + c]
    ensures Window(data, rows, cols, i, c) == Window(data', rows, cols, i, c)
  {
  }

  // ---------------------------------------------------------------------
  // The iterations in loop order

  /** f at pixels 0 .. x-1 of row i in channel k. */
  function RowCells<T>(f: (nat, nat, nat) -> T, k: nat, i: nat, x: nat): (r: seq<T>)
    ensures |r| == x
  {
    if x == 0 then [] else RowCells(f, k, i, x - 1) + [f(k, i, x - 1)]
  }

  /** f at every pixel of rows 0 .. i-1 of channel k, row by row. */
  function ChannelCells<T>(f: (nat, nat, nat) -> T, w: nat, k: nat, i: nat): (r: seq<T>)
    ensures |r| == Times(i, w)
  {
    if i == 0 then [] else ChannelCells(f, w, k, i - 1) + RowCells(f, k, i - 1, w)
  }

  /** f at every pixel of channels 0 .. k-1, channel by channel. */
  function ImageCells<T>(f: (nat, nat, nat) -> T, rows: nat, w: nat, k: nat): (r: seq<T>)
    ensures |r| == Times(k, Times(rows, w))
  {
    if k == 0 then [] else ImageCells(f, rows, w, k - 1) + ChannelCells(f, w, k - 1, rows)
  }

  /** f at every iteration that comes before (k, i, x) in loop order. */
  function CellsBefore<T>(f: (nat, nat, nat) -> T, rows: nat, w: nat, k: nat, i: nat, x: nat): (r: seq<T>)
    ensures |r| == Times(k, Times(rows, w)) + Times(i, w) + x
  {
    ImageCells(f, rows, w, k) + ChannelCells(f, w, k, i) + RowCells(f, k, i, x)
  }

  lemma CellsNext<T>(f: (nat, nat, nat) -> T, rows: nat, w: nat, k: nat, i: nat, x: nat)
    ensures CellsBefore(f, rows, w, k, i, x + 1) == CellsBefore(f, rows, w, k, i, x) + [f(k, i, x)]
  {
  }

  lemma CellsNextRow<T>(f: (nat, nat, nat) -> T, rows: nat, w: nat, k: nat, i: nat)
    ensures CellsBefore(f, rows, w, k, i, w) == CellsBefore(f, rows, w, k, i + 1, 0)
  {
  }

  lemma CellsNextChannel<T>(f: (nat, nat, nat) -> T, rows: nat, w: nat, k: nat)
    ensures CellsBefore(f, rows, w, k, rows, 0) == CellsBefore(f, rows, w, k + 1, 0, 0)
  {
    assert ChannelCells(f, w, k + 1, 0) + RowCells(f, k + 1, 0, 0) == [];
    assert RowCells(f, k, rows, 0) == [];
  }

  lemma CellsEnds<T>(f: (nat, nat, nat) -> T, rows: nat, w: nat, bpp: nat)
    ensures CellsBefore(f, rows, w, 0, 0, 0) == []
    ensures CellsBefore(f, rows, w, bpp, 0, 0) == ImageCells(f, rows, w, bpp)
  {
    assert ChannelCells(f, w, bpp, 0) + RowCells(f, bpp, 0, 0) == [];
  }

  /** The word prepareDataforTx makes for pixel x of row i in channel k:
      the window at row i, byte column x*bpp + k. */
  function WordAt(data: seq<byte>, rows: nat, w: nat, bpp: nat): (nat, nat, nat) -> Dword
  {
    (k: nat, i: nat, x: nat) => Pack(Window(data, rows, w * bpp, i, x * bpp + k))
  }

  /** The output index of pixel x of row i in channel k: i*COLS + j + k with j == x*bpp. */
  function StoreAt(w: nat, bpp: nat): (nat, nat, nat) -> int
  {
    (k: nat, i: nat, x: nat) => Offset(i, x, k, w, bpp)
  }

  /** The words the whole loop sends, in order. */
  function ImageWords(data: seq<byte>, rows: nat, w: nat, bpp: nat): seq<Dword>
  {
    ImageCells(WordAt(data, rows, w, bpp), rows, w, bpp)
  }

  /** The indices the whole loop stores at, in order. */
  function ImageStores(rows: nat, w: nat, bpp: nat): seq<int>
  {
    ImageCells(StoreAt(w, bpp), rows, w, bpp)
  }

  // ---------------------------------------------------------------------
  // Requests and answers

  /** The register accesses for sending `words`, in order, to an accelerator
      that has already received `history`: each word is written, then the
      answer is read back. */
  function Exchanges(history: seq<Dword>, words: seq<Dword>, accelerator: seq<Dword> -> byte): (t: seq<Access>)
    ensures |t| == 2 * |words|
    decreases |words|
  {
    if |words| == 0 then []
    else
      [Wrote(words[0]), Read(accelerator(history + [words[0]]))]
      + Exchanges(history + [words[0]], words[1..], accelerator)
  }

  /** The words written in trace t, in order. */
  function WrittenWords(t: seq<Access>): seq<Dword>
    decreases |t|
  {
    if |t| == 0 then []
    else if t[0].Wrote? then [t[0].word] + WrittenWords(t[1..])
    else WrittenWords(t[1..])
  }

  /** The t-th answer to `words` is what the accelerator gives once it has
      received word t. */
  function Answers(history: seq<Dword>, words: seq<Dword>, accelerator: seq<Dword> -> byte): (r: seq<byte>)
    ensures |r| == |words|
  {
    seq(|words|, t requires 0 <= t < |words| => accelerator(history + words[..t + 1]))
  }

  /** A run of requests: each a write immediately followed by one read that
      returns the accelerator's answer to everything it has received so far,
      the word just written last. */
  predicate Paired(t: seq<Access>, history: seq<Dword>, accelerator: seq<Dword> -> byte)
    decreases |t|
  {
    |t| == 0
    || (&& |t| >= 2 && t[0].Wrote?
        && t[1] == Read(accelerator(history + [t[0].word]))
        && Paired(t[2..], history + [t[0].word], accelerator))
  }

  /** Sending words gives a run of requests that writes exactly those words. */
  lemma {:induction false} ExchangesPaired(history: seq<Dword>, words: seq<Dword>, accelerator: seq<Dword> -> byte)
    ensures Paired(Exchanges(history, words, accelerator), history, accelerator)
    ensures WrittenWords(Exchanges(history, words, accelerator)) == words
    decreases |words|
  {
    if |words| > 0 {
      var t := Exchanges(history, words, accelerator);
      var rest := Exchanges(history + [words[0]], words[1..], accelerator);
      ExchangesPaired(history + [words[0]], words[1..], accelerator);
      assert t[2..] == rest;
      assert t[1..][1..] == rest;
      assert words == [words[0]] + words[1..];
    }
  }

  /** Conversely, every run of requests is the exchange of the words it writes. */
  lemma {:induction false} PairedIsExchanges(t: seq<Access>, history: seq<Dword>, accelerator: seq<Dword> -> byte)
    requires Paired(t, history, accelerator)
    ensures t == Exchanges(history, WrittenWords(t), accelerator)
    decreases |t|
  {
    if |t| > 0 {
      var word := t[0].word;
      PairedIsExchanges(t[2..], history + [word], accelerator);
      assert t[1..][1..] == t[2..];
      assert t[1..][0].Read?;
      assert WrittenWords(t[1..]) == WrittenWords(t[2..]);
      var ws := WrittenWords(t);
      assert ws == [word] + WrittenWords(t[2..]);
      assert ws[0] == word && ws[1..] == WrittenWords(t[2..]);
      assert t == t[..2] + t[2..];
    }
  }

  lemma {:induction false} ExchangesAppend(history: seq<Dword>, a: seq<Dword>, b: seq<Dword>,
                                           accelerator: seq<Dword> -> byte)
    ensures Exchanges(history, a + b, accelerator)
         == Exchanges(history, a, accelerator) + Exchanges(history + a, b, accelerator)
    decreases |a|
  {
    if |a| == 0 {
      assert a + b == b && history + a == history;
    } else {
      ExchangesAppend(history + [a[0]], a[1..], b, accelerator);
      assert (a + b)[0] == a[0] && (a + b)[1..] == a[1..] + b;
      assert history + [a[0]] + a[1..] == history + a;
    }
  }

  lemma ExchangesSnoc(history: seq<Dword>, words: seq<Dword>, word: Dword, accelerator: seq<Dword> -> byte)
    ensures Exchanges(history, words + [word], accelerator)
         == Exchanges(history, words, accelerator) + [Wrote(word), Read(accelerator(history + words + [word]))]
  {
    ExchangesAppend(history, words, [word], accelerator);
    assert [word][1..] == [];
  }

  /** Request t of an exchange writes word t and reads back answer t. */
  lemma {:induction false} ExchangeAt(history: seq<Dword>, words: seq<Dword>, accelerator: seq<Dword> -> byte, t: nat)
    requires t < |words|
    ensures Exchanges(history, words, accelerator)[2 * t] == Wrote(words[t])
    ensures Exchanges(history, words, accelerator)[2 * t + 1] == Read(Answers(history, words, accelerator)[t])
    decreases t
  {
    if t == 0 {
      assert words[..1] == [words[0]];
    } else {
      ExchangeAt(history + [words[0]], words[1..], accelerator, t - 1);
      assert history + [words[0]] + words[1..][..t] == history + words[..t + 1];
    }
  }

  lemma AnswersSnoc(history: seq<Dword>, words: seq<Dword>, word: Dword, accelerator: seq<Dword> -> byte)
    ensures Answers(history, words + [word], accelerator)
         == Answers(history, words, accelerator) + [accelerator(history + words + [word])]
  {
    var l := Answers(history, words + [word], accelerator);
    var r := Answers(history, words, accelerator) + [accelerator(history + words + [word])];
    forall t | 0 <= t < |l|
      ensures l[t] == r[t]
    {
      if t < |words| {
        assert (words + [word])[..t + 1] == words[..t + 1];
      } else {
        assert (words + [word])[..t + 1] == words + [word];
        assert history + (words + [word]) == history + words + [word];
      }
    }
  }

  // ---------------------------------------------------------------------
  // The stores into the output buffer

  /** `base` after storing values[t] at index stores[t], for t in order; an
      index outside the buffer stores nothing. */
  function Scatter(base: seq<byte>, stores: seq<int>, values: seq<byte>): (r: seq<byte>)
    requires |stores| == |values|
    ensures |r| == |base|
    decreases |stores|
  {
    if |stores| == 0 then base
    else
      var r := Scatter(base, stores[..|stores| - 1], values[..|values| - 1]);
      var s := stores[|stores| - 1];
      if 0 <= s < |r| then r[s := values[|values| - 1]] else r
  }

  lemma ScatterSnoc(base: seq<byte>, stores: seq<int>, values: seq<byte>, s: int, v: byte)
    requires |stores| == |values|
    ensures Scatter(base, stores + [s], values + [v])
         == var r := Scatter(base, stores, values); if 0 <= s < |r| then r[s := v] else r
  {
    assert (stores + [s])[..|stores|] == stores;
    assert (values + [v])[..|values|] == values;
  }

  predicate Distinct(s: seq<int>)
  {
    forall a, b :: 0 <= a < b < |s| ==> s[a] != s[b]
  }

  /** When no index is stored twice, each store inside the buffer holds its
      own value at the end, and an index never stored keeps its value. */
  lemma {:induction false} ScatterDistinct(base: seq<byte>, stores: seq<int>, values: seq<byte>)
    requires |stores| == |values| && Distinct(stores)
    ensures forall t :: 0 <= t < |stores| && 0 <= stores[t] < |base| ==>
      Scatter(base, stores, values)[stores[t]] == values[t]
    ensures forall p :: 0 <= p < |base| && p !in stores ==> Scatter(base, stores, values)[p] == base[p]
    decreases |stores|
  {
    if |stores| > 0 {
      var n := |stores| - 1;
      var s', v' := stores[..n], values[..n];
      ScatterDistinct(base, s', v');
      forall t | 0 <= t < |stores| && 0 <= stores[t] < |base|
        ensures Scatter(base, stores, values)[stores[t]] == values[t]
      {
        if t < n {
          assert stores[t] != stores[n] && s'[t] == stores[t] && v'[t] == values[t];
        }
      }
      forall p | 0 <= p < |base| && p !in stores
        ensures Scatter(base, stores, values)[p] == base[p]
      {
        assert stores == s' + [stores[n]];
      }
    }
  }

  // ---------------------------------------------------------------------
  // Every output index is stored exactly once

  /** Index p's iteration (channel, row, pixel) comes before (k, i, x) in loop order. */
  predicate DoneBefore(p: int, w: nat, bpp: nat, k: int, i: int, x: int)
  {
    && w * bpp > 0
    && var kp, ip, xp := ChanOf(p, w, bpp), RowOf(p, w, bpp), ColOf(p, w, bpp);
       kp < k || (kp == k && (ip < i || (ip == i && xp < x)))
  }

  /** The stores so far are those of the iterations before (k, i, x): no
      index twice, every one inside the ROWS*COLS buffer, and an index of
      that buffer among them exactly when its iteration came earlier. */
  predicate StoresUpTo(stores: seq<int>, rows: nat, w: nat, bpp: nat, k: nat, i: nat, x: nat)
  {
    && Distinct(stores)
    && (forall t :: 0 <= t < |stores| ==> 0 <= stores[t] < rows * (w * bpp))
    && (forall p :: 0 <= p < rows * (w * bpp) ==> (p in stores <==> DoneBefore(p, w, bpp, k, i, x)))
  }

  /** Storing at pixel (k, i, x)'s index advances the stores by one iteration. */
  lemma StoresStep(stores: seq<int>, rows: nat, w: nat, bpp: nat, k: nat, i: nat, x: nat)
    requires k < bpp && i < rows && x < w
    requires StoresUpTo(stores, rows, w, bpp, k, i, x)
    ensures StoresUpTo(stores + [Offset(i, x, k, w, bpp)], rows, w, bpp, k, i, x + 1)
  {
    var s0 := Offset(i, x, k, w, bpp);
    OffsetInImage(i, x, k, w, rows, bpp);
    OffsetDecodes(i, x, k, w, bpp);
    assert s0 !in stores;
    var s' := stores + [s0];
    forall a, b | 0 <= a < b < |s'|
      ensures s'[a] != s'[b]
    {
      if b == |stores| {
        assert s'[a] == stores[a];
      }
    }
    forall p | 0 <= p < rows * (w * bpp)
      ensures p in s' <==> DoneBefore(p, w, bpp, k, i, x + 1)
    {
      if p != s0 {
        DecodedOffset(p, w, bpp);
        assert DoneBefore(p, w, bpp, k, i, x + 1) == DoneBefore(p, w, bpp, k, i, x);
      }
    }
  }

  /** After the last pixel of row i, the next row starts. */
  lemma StoresRowEnd(stores: seq<int>, rows: nat, w: nat, bpp: nat, k: nat, i: nat)
    requires StoresUpTo(stores, rows, w, bpp, k, i, w)
    ensures StoresUpTo(stores, rows, w, bpp, k, i + 1, 0)
  {
    forall p | 0 <= p < rows * (w * bpp) && w * bpp > 0
      ensures DoneBefore(p, w, bpp, k, i, w) == DoneBefore(p, w, bpp, k, i + 1, 0)
    {
      PositiveFactors(w, bpp);
      DecodedOffset(p, w, bpp);
    }
  }

  /** Inside the image, "before row `rows` of channel k" and "before
      channel k + 1" are the same iterations. */
  lemma ChannelEndDone(rows: nat, w: nat, bpp: nat, k: nat)
    ensures forall p :: 0 <= p < rows * (w * bpp) && w * bpp > 0 ==>
      DoneBefore(p, w, bpp, k, rows, 0) == DoneBefore(p, w, bpp, k + 1, 0, 0)
  {
    forall p | 0 <= p < rows * (w * bpp) && w * bpp > 0
      ensures DoneBefore(p, w, bpp, k, rows, 0) == DoneBefore(p, w, bpp, k + 1, 0, 0)
    {
      PositiveFactors(w, bpp);
      RowInImage(p, w, rows, bpp);
    }
  }

  lemma {:induction false} RowStoresUpTo(rows: nat, w: nat, bpp: nat, k: nat, i: nat, x: nat)
    requires k < bpp && i < rows && x <= w
    requires StoresUpTo(CellsBefore(StoreAt(w, bpp), rows, w, k, i, 0), rows, w, bpp, k, i, 0)
    ensures StoresUpTo(CellsBefore(StoreAt(w, bpp), rows, w, k, i, x), rows, w, bpp, k, i, x)
    decreases x
  {
    if x > 0 {
      RowStoresUpTo(rows, w, bpp, k, i, x - 1);
      CellsNext(StoreAt(w, bpp), rows, w, k, i, x - 1);
      StoresStep(CellsBefore(StoreAt(w, bpp), rows, w, k, i, x - 1), rows, w, bpp, k, i, x - 1);
    }
  }

  lemma {:induction false} ChannelStoresUpTo(rows: nat, w: nat, bpp: nat, k: nat, i: nat)
    requires k < bpp && i <= rows
    requires StoresUpTo(CellsBefore(StoreAt(w, bpp), rows, w, k, 0, 0), rows, w, bpp, k, 0, 0)
    ensures StoresUpTo(CellsBefore(StoreAt(w, bpp), rows, w, k, i, 0), rows, w, bpp, k, i, 0)
    decreases i
  {
    if i > 0 {
      ChannelStoresUpTo(rows, w, bpp, k, i - 1);
      RowStoresUpTo(rows, w, bpp, k, i - 1, w);
      StoresRowEnd(CellsBefore(StoreAt(w, bpp), rows, w, k, i - 1, w), rows, w, bpp, k, i - 1);
      CellsNextRow(StoreAt(w, bpp), rows, w, k, i - 1);
    }
  }

  /** Before the first iteration nothing has been stored. */
  lemma StoresUpToStart(rows: nat, w: nat, bpp: nat)
    ensures StoresUpTo([], rows, w, bpp, 0, 0, 0)
  {
    forall p | 0 <= p < rows * (w * bpp) && w * bpp > 0
      ensures !DoneBefore(p, w, bpp, 0, 0, 0)
    {
      PositiveFactors(w, bpp);
      DecodedOffset(p, w, bpp);
      RowInImage(p, w, rows, bpp);
    }
  }

  /** The stores after the last row of channel k are those before channel k + 1. */
  lemma StoresChannelEnd(stores: seq<int>, rows: nat, w: nat, bpp: nat, k: nat)
    requires StoresUpTo(stores, rows, w, bpp, k, rows, 0)
    ensures StoresUpTo(stores, rows, w, bpp, k + 1, 0, 0)
  {
    ChannelEndDone(rows, w, bpp, k);
  }

  lemma {:induction false} ImageStoresUpTo(rows: nat, w: nat, bpp: nat, k: nat)
    requires k <= bpp
    ensures StoresUpTo(CellsBefore(StoreAt(w, bpp), rows, w, k, 0, 0), rows, w, bpp, k, 0, 0)
    decreases k
  {
    if k == 0 {
      CellsEnds(StoreAt(w, bpp), rows, w, bpp);
      StoresUpToStart(rows, w, bpp);
    } else {
      ImageStoresUpTo(rows, w, bpp, k - 1);
      ChannelStoresUpTo(rows, w, bpp, k - 1, rows);
      StoresChannelEnd(CellsBefore(StoreAt(w, bpp), rows, w, k - 1, rows, 0), rows, w, bpp, k - 1);
      CellsNextChannel(StoreAt(w, bpp), rows, w, k - 1);
    }
  }

  /** The loop stores at every index of the ROWS*COLS buffer exactly once:
      its stores are ROWS*COLS indices, all different, all inside the
      buffer, and every index of the buffer is among them. */
  lemma ImageStoresExactlyOnce(rows: nat, w: nat, bpp: nat)
    ensures var s := ImageStores(rows, w, bpp);
      && |s| == rows * (w * bpp)
      && Distinct(s)
      && (forall t :: 0 <= t < |s| ==> 0 <= s[t] < rows * (w * bpp))
      && (forall p :: 0 <= p < rows * (w * bpp) ==> p in s)
  {
    ImageStoresUpTo(rows, w, bpp, bpp);
    CellsEnds(StoreAt(w, bpp), rows, w, bpp);
    forall p | 0 <= p < rows * (w * bpp)
      ensures DoneBefore(p, w, bpp, bpp, 0, 0)
    {
      assert w * bpp > 0;
      PositiveFactors(w, bpp);
      DecodedOffset(p, w, bpp);
    }
    TimesIsProduct(rows, w);
    TimesIsProduct(bpp, rows * w);
    Reassociate(bpp, rows, w);
  }

  lemma Reassociate(a: nat, b: nat, c: nat)
    ensures a * (b * c) == b * (c * a)
  {
  }

  /** After the loop, the byte at each index stored is the answer to that
      store's request. */
  lemma {:induction false} ScatteredAnswers(img0: seq<byte>, history: seq<Dword>, data: seq<byte>, rows: nat, w: nat, bpp: nat,
                         accelerator: seq<Dword> -> byte)
    requires rows * (w * bpp) <= |img0|
    ensures var words, stores := ImageWords(data, rows, w, bpp), ImageStores(rows, w, bpp);
      var img := Scatter(img0, stores, Answers(history, words, accelerator));
      forall t :: 0 <= t < |stores| ==>
        0 <= stores[t] < rows * (w * bpp) && img[stores[t]] == accelerator(history + words[..t + 1])
  {
    var words, stores := ImageWords(data, rows, w, bpp), ImageStores(rows, w, bpp);
    var answers := Answers(history, words, accelerator);
    ImageStoresExactlyOnce(rows, w, bpp);
    ScatterInside(img0, stores, answers, rows * (w * bpp));
    var img := Scatter(img0, stores, answers);
    forall t | 0 <= t < |stores|
      ensures img[stores[t]] == accelerator(history + words[..t + 1])
    {
      assert img[stores[t]] == answers[t];
    }
  }

  /** The loop writes nothing past the ROWS*COLS buffer. */
  lemma ScatteredTail(img0: seq<byte>, history: seq<Dword>, data: seq<byte>, rows: nat, w: nat, bpp: nat,
                      accelerator: seq<Dword> -> byte)
    requires Times(rows, Times(w, bpp)) <= |img0|
    ensures var img := Scatter(img0, ImageStores(rows, w, bpp), Answers(history, ImageWords(data, rows, w, bpp), accelerator));
      forall p :: Times(rows, Times(w, bpp)) <= p < |img0| ==> img[p] == img0[p]
  {
    TimesIsProduct(w, bpp);
    TimesIsProduct(rows, w * bpp);
    ImageStoresExactlyOnce(rows, w, bpp);
    ScatterInside(img0, ImageStores(rows, w, bpp), Answers(history, ImageWords(data, rows, w, bpp), accelerator),
                  rows * (w * bpp));
  }

  /** Distinct stores that cover the whole buffer overwrite all of it, so
      what the buffer held before does not matter. */
  lemma ScatterCovers(base: seq<byte>, other: seq<byte>, stores: seq<int>, values: seq<byte>)
    requires |stores| == |values| && Distinct(stores) && |base| == |other|
    requires forall p :: 0 <= p < |base| ==> p in stores
    ensures Scatter(base, stores, values) == Scatter(other, stores, values)
  {
    var a, b := Scatter(base, stores, values), Scatter(other, stores, values);
    ScatterDistinct(base, stores, values);
    ScatterDistinct(other, stores, values);
    forall p | 0 <= p < |a|
      ensures a[p] == b[p]
    {
      assert p in stores;
      var t :| 0 <= t < |stores| && stores[t] == p;
      assert a[p] == values[t] && b[p] == values[t];
    }
    assert |a| == |b|;
  }

  /** Distinct stores below n: each holds its value, and nothing from n on changes. */
  lemma ScatterInside(base: seq<byte>, stores: seq<int>, values: seq<byte>, n: nat)
    requires |stores| == |values| && Distinct(stores) && n <= |base|
    requires forall t :: 0 <= t < |stores| ==> 0 <= stores[t] < n
    ensures forall t :: 0 <= t < |stores| ==> Scatter(base, stores, values)[stores[t]] == values[t]
    ensures forall p :: n <= p < |base| ==> Scatter(base, stores, values)[p] == base[p]
  {
    ScatterDistinct(base, stores, values);
    forall p | n <= p < |base|
      ensures p !in stores
    {
      assert forall t :: 0 <= t < |stores| ==> stores[t] != p;
    }
  }

  /** The position of pixel x of row i in channel k in loop order. */
  function Index(rows: nat, w: nat, k: nat, i: nat, x: nat): nat
  {
    Times(k, Times(rows, w)) + Times(i, w) + x
  }

  /** words and stores are those of the whole loop: iteration (k, i, x) comes
      Index(rows, w, k, i, x)-th in loop order, sends the word f(k, i, x) and
      stores at Offset(i, x, k, w, bpp). */
  predicate Scheduled(words: seq<Dword>, stores: seq<int>, f: (nat, nat, nat) -> Dword, rows: nat, w: nat, bpp: nat)
  {
    && |words| == |stores| == Times(bpp, Times(rows, w))
    && forall k: nat, i: nat, x: nat :: k < bpp && i < rows && x < w ==>
         && Index(rows, w, k, i, x) < |words|
         && words[Index(rows, w, k, i, x)] == f(k, i, x)
         && stores[Index(rows, w, k, i, x)] == Offset(i, x, k, w, bpp)
  }

  lemma ImageScheduled(data: seq<byte>, rows: nat, w: nat, bpp: nat)
    ensures Scheduled(ImageWords(data, rows, w, bpp), ImageStores(rows, w, bpp), WordAt(data, rows, w, bpp), rows, w, bpp)
  {
    var words, stores := ImageWords(data, rows, w, bpp), ImageStores(rows, w, bpp);
    forall k: nat, i: nat, x: nat | k < bpp && i < rows && x < w
      ensures Index(rows, w, k, i, x) < |words|
      ensures words[Index(rows, w, k, i, x)] == WordAt(data, rows, w, bpp)(k, i, x)
      ensures stores[Index(rows, w, k, i, x)] == Offset(i, x, k, w, bpp)
    {
      ImageCellsAt(WordAt(data, rows, w, bpp), rows, w, k, i, x, bpp);
      ImageCellsAt(StoreAt(w, bpp), rows, w, k, i, x, bpp);
    }
  }

  lemma {:induction false} RowCellsAt<T>(f: (nat, nat, nat) -> T, k: nat, i: nat, x: nat, n: nat)
    requires x < n
    ensures RowCells(f, k, i, n)[x] == f(k, i, x)
    decreases n
  {
    if x < n - 1 {
      RowCellsAt(f, k, i, x, n - 1);
    }
  }

  lemma {:induction false} ChannelCellsAt<T>(f: (nat, nat, nat) -> T, w: nat, k: nat, i: nat, x: nat, n: nat)
    requires i < n && x < w
    ensures Times(i, w) + x < Times(n, w)
    ensures ChannelCells(f, w, k, n)[Times(i, w) + x] == f(k, i, x)
    decreases n
  {
    if i < n - 1 {
      ChannelCellsAt(f, w, k, i, x, n - 1);
    } else {
      RowCellsAt(f, k, i, x, w);
    }
  }

  /** Iteration (k, i, x) is entry Index(k, i, x) of the whole loop's list. */
  lemma {:induction false} ImageCellsAt<T>(f: (nat, nat, nat) -> T, rows: nat, w: nat, k: nat, i: nat, x: nat, n: nat)
    requires k < n && i < rows && x < w
    ensures Index(rows, w, k, i, x) < Times(n, Times(rows, w))
    ensures ImageCells(f, rows, w, n)[Index(rows, w, k, i, x)] == f(k, i, x)
    decreases n
  {
    ChannelCellsAt(f, w, k, i, x, rows);
    if k < n - 1 {
      ImageCellsAt(f, rows, w, k, i, x, n - 1);
    }
  }

  lemma NextRowIndex(rows: nat, w: nat, k: nat, i: nat)
    ensures Index(rows, w, k, i, w) == Index(rows, w, k, i + 1, 0)
  {
  }

  /** The position of the first pixel of channel k in loop order. */
  function ChannelStart(rows: nat, w: nat, k: nat): nat
  {
    Times(k, Times(rows, w))
  }

  lemma NextChannelIndex(rows: nat, w: nat, k: nat)
    ensures Index(rows, w, k, rows, 0) == ChannelStart(rows, w, k + 1)
  {
  }

  /** What the loop has produced so far: the buffer, the words the
      accelerator has received and the register accesses. */
  datatype Stage = Stage(image: seq<byte>, received: seq<Dword>, accesses: seq<Access>)

  /** One iteration: write the word, read back the accelerator's answer and
      store it at the index, when the index is inside the buffer. */
  function Iteration(s: Stage, word: Dword, store: int, accelerator: seq<Dword> -> byte): Stage
  {
    var answer := accelerator(s.received + [word]);
    Stage(if 0 <= store < |s.image| then s.image[store := answer] else s.image,
          s.received + [word], s.accesses + [Wrote(word), Read(answer)])
  }

  /** The stage after the first n iterations from `start`. */
  function Progress(start: Stage, words: seq<Dword>, stores: seq<int>,
                    accelerator: seq<Dword> -> byte, n: nat): Stage
    requires n <= |words| && |stores| == |words|
  {
    if n == 0 then start
    else Iteration(Progress(start, words, stores, accelerator, n - 1), words[n - 1], stores[n - 1], accelerator)
  }

  /** Storing the answers, receiving the words and making the exchanges of
      one more word is one more Iteration. */
  lemma StageSnoc(img0: seq<byte>, h0: seq<Dword>, a0: seq<Access>, words: seq<Dword>, stores: seq<int>,
                  word: Dword, store: int, accelerator: seq<Dword> -> byte)
    requires |stores| == |words|
    ensures Stage(Scatter(img0, stores + [store], Answers(h0, words + [word], accelerator)),
                  h0 + (words + [word]), a0 + Exchanges(h0, words + [word], accelerator))
         == Iteration(Stage(Scatter(img0, stores, Answers(h0, words, accelerator)),
                       h0 + words, a0 + Exchanges(h0, words, accelerator)), word, store, accelerator)
  {
    AnswersSnoc(h0, words, word, accelerator);
    ScatterSnoc(img0, stores, Answers(h0, words, accelerator), store, accelerator(h0 + words + [word]));
    ExchangesSnoc(h0, words, word, accelerator);
  }

  /** n iterations store the first n answers at the first n stores, and
      make the first n exchanges. */
  lemma {:induction false} ProgressIs(img0: seq<byte>, h0: seq<Dword>, a0: seq<Access>,
                                      words: seq<Dword>, stores: seq<int>, accelerator: seq<Dword> -> byte, n: nat)
    requires n <= |words| && |stores| == |words|
    ensures Progress(Stage(img0, h0, a0), words, stores, accelerator, n)
         == Stage(Scatter(img0, stores[..n], Answers(h0, words[..n], accelerator)),
                  h0 + words[..n], a0 + Exchanges(h0, words[..n], accelerator))
    decreases n
  {
    if n > 0 {
      var m := n - 1;
      ProgressIs(img0, h0, a0, words, stores, accelerator, m);
      assert words[..n] == words[..m] + [words[m]];
      assert stores[..n] == stores[..m] + [stores[m]];
      StageSnoc(img0, h0, a0, words[..m], stores[..m], words[m], stores[m], accelerator);
    }
  }

  /** The loop has done its first n iterations, starting from buffer img0,
      received words h0 and accesses a0. */
  predicate Streamed(img: seq<byte>, received: seq<Dword>, accesses: seq<Access>,
                     img0: seq<byte>, h0: seq<Dword>, a0: seq<Access>,
                     words: seq<Dword>, stores: seq<int>, accelerator: seq<Dword> -> byte, n: nat)
  {
    && n <= |words| && |stores| == |words|
    && Stage(img, received, accesses) == Progress(Stage(img0, h0, a0), words, stores, accelerator, n)
  }

  /** One more request, answered and stored, advances the loop by one iteration. */
  lemma StreamStep(img: seq<byte>, received: seq<Dword>, accesses: seq<Access>,
                   img0: seq<byte>, h0: seq<Dword>, a0: seq<Access>,
                   words: seq<Dword>, stores: seq<int>, accelerator: seq<Dword> -> byte, n: nat)
    requires Streamed(img, received, accesses, img0, h0, a0, words, stores, accelerator, n)
    requires n < |words| && 0 <= stores[n] < |img|
    ensures var answer := accelerator(received + [words[n]]);
      Streamed(img[stores[n] := answer], received + [words[n]], accesses + [Wrote(words[n]), Read(answer)],
               img0, h0, a0, words, stores, accelerator, n + 1)
  {
  }

  /** The centre index of pixel (k, i, x) lies in the ROWS*COLS buffer. */
  lemma CellInImage(rows: nat, w: nat, bpp: nat, k: nat, i: nat, x: nat, cols: int, j: int)
    requires k < bpp && i < rows && x < w && cols == w * bpp && j == x * bpp
    ensures i * cols + (j + k) == Offset(i, x, k, w, bpp)
    ensures 0 <= i * cols + (j + k) < rows * cols
  {
    OffsetInImage(i, x, k, w, rows, bpp);
  }

  // ---------------------------------------------------------------------
  // The loop

  /** x*bpp < w*bpp exactly when x < w, for a positive bpp. */
  lemma ScaledLess(x: nat, w: nat, bpp: nat)
    requires bpp > 0
    ensures x * bpp < w * bpp <==> x < w
  {
    if x < w {
      MulStrict(x, w, bpp);
    } else {
      MulMonotone(w, x, bpp);
    }
  }

  lemma TimesLess(x: nat, w: nat, bpp: nat)
    requires bpp > 0
    ensures Times(x, bpp) < Times(w, bpp) <==> x < w
  {
    TimesIsProduct(x, bpp);
    TimesIsProduct(w, bpp);
    ScaledLess(x, w, bpp);
  }

  /** Lines 104-124: input_row receives the window for row i and byte column c. */
  method BuildWindow(bitmapData: array<byte>, inputRow: array<byte>, rows: int, cols: int, i: int, c: int)
    requires inputRow.Length == SIZE_BUFFER && bitmapData != inputRow
    modifies inputRow
    ensures inputRow[..] == Window(bitmapData[..], rows, cols, i, c)
  {
    var prevIndex := (i - 1) * cols + c;
    var currIndex := i * cols + c;
    var nextIndex := (i + 1) * cols + c;
    if 0 <= prevIndex < bitmapData.Length && 0 <= currIndex < bitmapData.Length
      && 0 <= nextIndex < bitmapData.Length
    {
      inputRow[0] := if i == 0 then 0 else bitmapData[prevIndex];
      inputRow[1] := bitmapData[currIndex];
      inputRow[2] := if i == rows - 1 then 0 else bitmapData[nextIndex];
    } else {
      inputRow[0] := 0;
      inputRow[1] := 0;
      inputRow[2] := 0;
    }
  }

  /** Lines 104-129 for one (row, byte column): build the window, send its
      packed word, and store the answer read back at the window's centre
      index. */
  method StreamPixel(bridge: FpgaBridge, bitmapData: array<byte>, inputRow: array<byte>,
                     finalImage: array<byte>, rows: int, cols: int, i: int, c: int)
    requires Configured(bridge.State())
    requires inputRow.Length == SIZE_BUFFER
    requires bitmapData != finalImage && bitmapData != inputRow && inputRow != finalImage
    requires 0 <= i * cols + c < finalImage.Length
    modifies bridge, inputRow, finalImage
    ensures var word := Pack(Window(bitmapData[..], rows, cols, i, c));
      var answer := bridge.accelerator(old(bridge.received) + [word]);
      && inputRow[..] == Window(bitmapData[..], rows, cols, i, c)
      && finalImage[..] == old(finalImage[..])[i * cols + c := answer]
      && bridge.received == old(bridge.received) + [word]
      && bridge.State() == old(bridge.State()).(inputRegister := word)
      && bridge.accesses == old(bridge.accesses) + [Wrote(word), Read(answer)]
      && bridge.osCalls == old(bridge.osCalls)
  {
    BuildWindow(bitmapData, inputRow, rows, cols, i, c);
    var dataToFpga := PrepareDataForTx(inputRow, SIZE_BUFFER);
    assert inputRow[..SIZE_BUFFER] == inputRow[..];
    bridge.WriteToFpga(dataToFpga);
    var outputPixel := bridge.ReadFromFpga();
    finalImage[i * cols + c] := outputPixel;
  }

  /** One pass of the column loop's body, for pixel x of row i in channel k
      (j == x*bpp): the word of that pixel's window goes out, and the answer
      is stored at that pixel's index. */
  method StreamCell(bridge: FpgaBridge, bitmapData: array<byte>, inputRow: array<byte>,
                    finalImage: array<byte>, rows: int, cols: int, bpp: nat, k: nat, i: nat, j: int,
                    ghost w: nat, ghost x: nat)
    requires Configured(bridge.State())
    requires inputRow.Length == SIZE_BUFFER
    requires bitmapData != finalImage && bitmapData != inputRow && inputRow != finalImage
    requires k < bpp && 0 <= i < rows && x < w && cols == Times(w, bpp) && j == Times(x, bpp)
    requires Times(rows, Times(w, bpp)) <= finalImage.Length
    modifies bridge, inputRow, finalImage
    ensures var word := WordAt(bitmapData[..], rows, w, bpp)(k, i, x);
      var answer := bridge.accelerator(old(bridge.received) + [word]);
      && 0 <= Offset(i, x, k, w, bpp) < finalImage.Length
      && finalImage[..] == old(finalImage[..])[Offset(i, x, k, w, bpp) := answer]
      && bridge.received == old(bridge.received) + [word]
      && bridge.accesses == old(bridge.accesses) + [Wrote(word), Read(answer)]
    ensures bridge.State().(inputRegister := old(bridge.inputRegister)) == old(bridge.State())
    ensures bridge.osCalls == old(bridge.osCalls)
  {
    TimesIsProduct(w, bpp);
    TimesIsProduct(x, bpp);
    TimesIsProduct(rows, w * bpp);
    ghost var word := WordAt(bitmapData[..], rows, w, bpp)(k, i, x);
    assert word == Pack(Window(bitmapData[..], rows, cols, i, j + k));
    CellInImage(rows, w, bpp, k, i, x, cols, j);
    StreamPixel(bridge, bitmapData, inputRow, finalImage, rows, cols, i, j + k);
  }

  /** The same pass, seen from the column loop: with j < COLS it is
      iteration n of the whole loop, and it advances the loop by one. */
  method StreamNext(bridge: FpgaBridge, bitmapData: array<byte>, inputRow: array<byte>,
                    finalImage: array<byte>, rows: int, cols: int, bpp: nat, k: nat, i: nat, j: int,
                    ghost img0: seq<byte>, ghost h0: seq<Dword>, ghost a0: seq<Access>,
                    ghost words: seq<Dword>, ghost stores: seq<int>, ghost w: nat, ghost x: nat, ghost n: nat)
    requires Configured(bridge.State())
    requires inputRow.Length == SIZE_BUFFER
    requires bitmapData != finalImage && bitmapData != inputRow && inputRow != finalImage
    requires k < bpp && 0 <= i < rows && x <= w && j == Times(x, bpp) && j < cols && cols == Times(w, bpp)
    requires Times(rows, Times(w, bpp)) <= finalImage.Length
    requires Scheduled(words, stores, WordAt(bitmapData[..], rows, w, bpp), rows, w, bpp)
    requires n == Index(rows, w, k, i, x)
    requires Streamed(finalImage[..], bridge.received, bridge.accesses, img0, h0, a0, words, stores,
                      bridge.accelerator, n)
    modifies bridge, inputRow, finalImage
    ensures x + 1 <= w && j + bpp == Times(x + 1, bpp) && n + 1 == Index(rows, w, k, i, x + 1)
    ensures Streamed(finalImage[..], bridge.received, bridge.accesses, img0, h0, a0, words, stores,
                     bridge.accelerator, n + 1)
    ensures Configured(bridge.State())
    ensures bridge.State().(inputRegister := old(bridge.inputRegister)) == old(bridge.State())
    ensures bridge.osCalls == old(bridge.osCalls)
  {
    TimesLess(x, w, bpp);
    ghost var img, received, accesses := finalImage[..], bridge.received, bridge.accesses;
    StreamCell(bridge, bitmapData, inputRow, finalImage, rows, cols, bpp, k, i, j, w, x);
    StreamStep(img, received, accesses, img0, h0, a0, words, stores, bridge.accelerator, n);
  }

  /** The column loop (line 101) of row i in channel k. */
  method StreamRow(bridge: FpgaBridge, bitmapData: array<byte>, inputRow: array<byte>,
                   finalImage: array<byte>, rows: int, cols: int, bpp: nat, k: nat, i: nat,
                   ghost img0: seq<byte>, ghost h0: seq<Dword>, ghost a0: seq<Access>,
                   ghost words: seq<Dword>, ghost stores: seq<int>, ghost w: nat)
    requires Configured(bridge.State())
    requires inputRow.Length == SIZE_BUFFER
    requires bitmapData != finalImage && bitmapData != inputRow && inputRow != finalImage
    requires k < bpp && 0 <= i < rows
    requires cols > 0 ==> cols == Times(w, bpp)
    requires cols <= 0 ==> w == 0
    requires Times(rows, Times(w, bpp)) <= finalImage.Length
    requires Scheduled(words, stores, WordAt(bitmapData[..], rows, w, bpp), rows, w, bpp)
    requires Streamed(finalImage[..], bridge.received, bridge.accesses, img0, h0, a0, words, stores,
                      bridge.accelerator, Index(rows, w, k, i, 0))
    modifies bridge, inputRow, finalImage
    ensures Streamed(finalImage[..], bridge.received, bridge.accesses, img0, h0, a0, words, stores,
                     bridge.accelerator, Index(rows, w, k, i + 1, 0))
    ensures bridge.State().(inputRegister := old(bridge.inputRegister)) == old(bridge.State())
    ensures bridge.osCalls == old(bridge.osCalls)
  {
    var j := 0;
    ghost var x: nat := 0;
    ghost var n := Index(rows, w, k, i, 0);
    while j < cols
      invariant 0 <= x <= w && j == Times(x, bpp) && n == Index(rows, w, k, i, x)
      invariant Streamed(finalImage[..], bridge.received, bridge.accesses, img0, h0, a0, words, stores,
                         bridge.accelerator, n)
      invariant bridge.State().(inputRegister := old(bridge.inputRegister)) == old(bridge.State())
      invariant bridge.osCalls == old(bridge.osCalls)
    {
      StreamNext(bridge, bitmapData, inputRow, finalImage, rows, cols, bpp, k, i, j,
                 img0, h0, a0, words, stores, w, x, n);
      j := j + bpp;
      x := x + 1;
      n := n + 1;
    }
    if cols > 0 {
      TimesLess(x, w, bpp);
    }
    assert x == w;
    NextRowIndex(rows, w, k, i);
  }

  /** The row loop (line 99) of channel k. */
  method StreamChannel(bridge: FpgaBridge, bitmapData: array<byte>, inputRow: array<byte>,
                       finalImage: array<byte>, rows: int, cols: int, bpp: nat, k: nat,
                       ghost img0: seq<byte>, ghost h0: seq<Dword>, ghost a0: seq<Access>,
                       ghost words: seq<Dword>, ghost stores: seq<int>, ghost rowCount: nat, ghost w: nat)
    requires Configured(bridge.State())
    requires inputRow.Length == SIZE_BUFFER
    requires bitmapData != finalImage && bitmapData != inputRow && inputRow != finalImage
    requires k < bpp
    requires rows > 0 ==> rows == rowCount
    requires rows <= 0 ==> rowCount == 0
    requires cols > 0 ==> cols == Times(w, bpp)
    requires cols <= 0 ==> w == 0
    requires Times(rowCount, Times(w, bpp)) <= finalImage.Length
    requires Scheduled(words, stores, WordAt(bitmapData[..], rowCount, w, bpp), rowCount, w, bpp)
    requires Streamed(finalImage[..], bridge.received, bridge.accesses, img0, h0, a0, words, stores,
                      bridge.accelerator, ChannelStart(rowCount, w, k))
    modifies bridge, inputRow, finalImage
    ensures Streamed(finalImage[..], bridge.received, bridge.accesses, img0, h0, a0, words, stores,
                     bridge.accelerator, ChannelStart(rowCount, w, k + 1))
    ensures inputRow[..] == [0, 0, 0]
    ensures bridge.State().(inputRegister := old(bridge.inputRegister)) == old(bridge.State())
    ensures bridge.osCalls == old(bridge.osCalls)
  {
    var i := 0;
    while i < rows
      invariant 0 <= i <= rowCount
      invariant Streamed(finalImage[..], bridge.received, bridge.accesses, img0, h0, a0, words, stores,
                         bridge.accelerator, Index(rowCount, w, k, i, 0))
      invariant bridge.State().(inputRegister := old(bridge.inputRegister)) == old(bridge.State())
      invariant bridge.osCalls == old(bridge.osCalls)
    {
      StreamRow(bridge, bitmapData, inputRow, finalImage, rows, cols, bpp, k, i, img0, h0, a0, words, stores, w);
      i := i + 1;
    }
    NextChannelIndex(rowCount, w, k);
    ClearInputRow(inputRow);
  }

  /** The C bounds COLS = width*bpp and ROWS = height*bpp against their
      non-negative counterparts, once there is at least one channel. */
  lemma LoopBounds(width: int, height: int, bpp: nat)
    ensures Extent(width, bpp) == Extent(width, 1) * bpp
    ensures bpp > 0 ==> (width * bpp > 0 ==> width * bpp == Extent(width, 1) * bpp)
    ensures bpp > 0 ==> (width * bpp <= 0 ==> Extent(width, 1) == 0)
    ensures height * bpp > 0 ==> height * bpp == Extent(height, bpp)
    ensures bpp > 0 ==> (height * bpp <= 0 ==> Extent(height, bpp) == 0)
  {
    if bpp > 0 {
      if width > 0 {
        MulAtLeast(width, bpp);
      } else {
        MulMonotone(0, -width, bpp);
      }
      if height > 0 {
        MulAtLeast(height, bpp);
      } else {
        MulMonotone(0, -height, bpp);
      }
    }
  }

  /** Lines 132-134: input_row is cleared after each channel. */
  method ClearInputRow(inputRow: array<byte>)
    requires inputRow.Length == SIZE_BUFFER
    modifies inputRow
    ensures inputRow[..] == [0, 0, 0]
  {
    inputRow[0] := 0;
    inputRow[1] := 0;
    inputRow[2] := 0;
  }

  /** The channel loop (line 97), clearing input_row after every channel. */
  method StreamChannels(bridge: FpgaBridge, bitmapData: array<byte>, inputRow: array<byte>,
                        finalImage: array<byte>, rows: int, cols: int, bpp: nat,
                        ghost img0: seq<byte>, ghost h0: seq<Dword>, ghost a0: seq<Access>,
                        ghost words: seq<Dword>, ghost stores: seq<int>, ghost rowCount: nat, ghost w: nat)
    requires Configured(bridge.State())
    requires inputRow.Length == SIZE_BUFFER
    requires bitmapData != finalImage && bitmapData != inputRow && inputRow != finalImage
    requires rows > 0 ==> rows == rowCount
    requires bpp > 0 && rows <= 0 ==> rowCount == 0
    requires bpp > 0 && cols > 0 ==> cols == Times(w, bpp)
    requires bpp > 0 && cols <= 0 ==> w == 0
    requires Times(rowCount, Times(w, bpp)) <= finalImage.Length
    requires Scheduled(words, stores, WordAt(bitmapData[..], rowCount, w, bpp), rowCount, w, bpp)
    requires Streamed(finalImage[..], bridge.received, bridge.accesses, img0, h0, a0, words, stores,
                      bridge.accelerator, 0)
    modifies bridge, inputRow, finalImage
    ensures Streamed(finalImage[..], bridge.received, bridge.accesses, img0, h0, a0, words, stores,
                     bridge.accelerator, |words|)
    ensures bpp > 0 ==> inputRow[..] == [0, 0, 0]
    ensures bpp == 0 ==> inputRow[..] == old(inputRow[..])
    ensures bridge.State().(inputRegister := old(bridge.inputRegister)) == old(bridge.State())
    ensures bridge.osCalls == old(bridge.osCalls)
  {
    var k := 0;
    while k < bpp
      invariant 0 <= k <= bpp
      invariant Streamed(finalImage[..], bridge.received, bridge.accesses, img0, h0, a0, words, stores,
                         bridge.accelerator, ChannelStart(rowCount, w, k))
      invariant k > 0 ==> inputRow[..] == [0, 0, 0]
      invariant k == 0 ==> inputRow[..] == old(inputRow[..])
      invariant bridge.State().(inputRegister := old(bridge.inputRegister)) == old(bridge.State())
      invariant bridge.osCalls == old(bridge.osCalls)
    {
      StreamChannel(bridge, bitmapData, inputRow, finalImage, rows, cols, bpp, k,
                    img0, h0, a0, words, stores, rowCount, w);
      k := k + 1;
    }
  }

  lemma StreamedStart(img0: seq<byte>, h0: seq<Dword>, a0: seq<Access>,
                      words: seq<Dword>, stores: seq<int>, accelerator: seq<Dword> -> byte)
    requires |stores| == |words|
    ensures Streamed(img0, h0, a0, img0, h0, a0, words, stores, accelerator, 0)
  {
  }

  lemma StreamedAll(img: seq<byte>, received: seq<Dword>, accesses: seq<Access>,
                    img0: seq<byte>, h0: seq<Dword>, a0: seq<Access>,
                    words: seq<Dword>, stores: seq<int>, accelerator: seq<Dword> -> byte)
    requires Streamed(img, received, accesses, img0, h0, a0, words, stores, accelerator, |words|)
    ensures img == Scatter(img0, stores, Answers(h0, words, accelerator))
    ensures received == h0 + words
    ensures accesses == a0 + Exchanges(h0, words, accelerator)
  {
    ProgressIs(img0, h0, a0, words, stores, accelerator, |words|);
    assert words[..|words|] == words && stores[..|stores|] == stores;
  }

  /** What the whole loop leaves behind, request by request: request t
      writes word t and reads back the byte that ends up at store t, every
      store lies in the ROWS*COLS bytes, and nothing past them changes. */
  lemma LoopOutcome(img0: seq<byte>, h0: seq<Dword>, data: seq<byte>,
                    rows: nat, w: nat, bpp: nat, accelerator: seq<Dword> -> byte)
    requires rows * (w * bpp) <= |img0|
    ensures var words, stores := ImageWords(data, rows, w, bpp), ImageStores(rows, w, bpp);
      var img := Scatter(img0, stores, Answers(h0, words, accelerator));
      var exchanges := Exchanges(h0, words, accelerator);
      && |stores| == |words| == rows * (w * bpp)
      && (forall t :: 0 <= t < |stores| ==>
            && 0 <= stores[t] < rows * (w * bpp)
            && exchanges[2 * t] == Wrote(words[t])
            && exchanges[2 * t + 1] == Read(img[stores[t]]))
      && (forall p :: rows * (w * bpp) <= p < |img| ==> img[p] == img0[p])
  {
    var words, stores := ImageWords(data, rows, w, bpp), ImageStores(rows, w, bpp);
    var img := Scatter(img0, stores, Answers(h0, words, accelerator));
    ImageStoresExactlyOnce(rows, w, bpp);
    ScatteredAnswers(img0, h0, data, rows, w, bpp, accelerator);
    TimesIsProduct(w, bpp);
    TimesIsProduct(rows, w * bpp);
    ScatteredTail(img0, h0, data, rows, w, bpp, accelerator);
    forall t | 0 <= t < |stores|
      ensures Exchanges(h0, words, accelerator)[2 * t] == Wrote(words[t])
      ensures Exchanges(h0, words, accelerator)[2 * t + 1] == Read(img[stores[t]])
    {
      ExchangeAt(h0, words, accelerator, t);
    }
  }

  /** The whole channel/row/column loop over ROWS*COLS bytes, with ROWS and
      COLS given as computed (rowCount and w*bpp when positive). */
  method StreamLoop(bridge: FpgaBridge, bitmapData: array<byte>, inputRow: array<byte>,
                    finalImage: array<byte>, rows: int, cols: int, bpp: nat, ghost rowCount: nat, ghost w: nat)
    requires Configured(bridge.State())
    requires inputRow.Length == SIZE_BUFFER
    requires bitmapData != finalImage && bitmapData != inputRow && inputRow != finalImage
    requires rows > 0 ==> rows == rowCount
    requires bpp > 0 && rows <= 0 ==> rowCount == 0
    requires bpp > 0 && cols > 0 ==> cols == Times(w, bpp)
    requires bpp > 0 && cols <= 0 ==> w == 0
    requires rowCount * (w * bpp) <= finalImage.Length
    modifies bridge, inputRow, finalImage
    ensures var words := ImageWords(old(bitmapData[..]), rowCount, w, bpp);
      && finalImage[..] == Scatter(old(finalImage[..]), ImageStores(rowCount, w, bpp),
                                   Answers(old(bridge.received), words, bridge.accelerator))
      && bridge.received == old(bridge.received) + words
      && bridge.accesses == old(bridge.accesses) + Exchanges(old(bridge.received), words, bridge.accelerator)
    ensures bpp > 0 ==> inputRow[..] == [0, 0, 0]
    ensures bpp == 0 ==> inputRow[..] == old(inputRow[..])
    ensures bridge.State().(inputRegister := old(bridge.inputRegister)) == old(bridge.State())
    ensures bridge.osCalls == old(bridge.osCalls)
    ensures bitmapData[..] == old(bitmapData[..])
  {
    ghost var img0, h0, a0 := finalImage[..], bridge.received, bridge.accesses;
    ghost var words, stores := ImageWords(bitmapData[..], rowCount, w, bpp), ImageStores(rowCount, w, bpp);
    TimesIsProduct(w, bpp);
    TimesIsProduct(rowCount, w * bpp);
    ImageScheduled(bitmapData[..], rowCount, w, bpp);
    StreamedStart(img0, h0, a0, words, stores, bridge.accelerator);
    StreamChannels(bridge, bitmapData, inputRow, finalImage, rows, cols, bpp,
                   img0, h0, a0, words, stores, rowCount, w);
    StreamedAll(finalImage[..], bridge.received, bridge.accesses, img0, h0, a0, words, stores, bridge.accelerator);
  }

  /** Lines 83-135: COLS and ROWS from the header's width, height and pixel
      size, then the channel/row/column loop over a buffer of ROWS*COLS
      bytes. The requests go out in loop order, one write of the window's
      word and one read of the answer each, and answer t is stored at store
      t. LoopOutcome and ImageStoresExactlyOnce spell out what that means:
      each of the ROWS*COLS bytes is stored exactly once, with the answer to
      its own request, and the bytes past them are not written. The caller
      keeps ROWS, COLS and every index (i+1)*COLS + j + k within an int. */
  method StreamImage(bridge: FpgaBridge, bitmapData: array<byte>, inputRow: array<byte>,
                     finalImage: array<byte>, width: int, height: int, bpp: nat)
    requires Configured(bridge.State())
    requires inputRow.Length == SIZE_BUFFER
    requires bitmapData != finalImage && bitmapData != inputRow && inputRow != finalImage
    requires Extent(height, bpp) * Extent(width, bpp) <= finalImage.Length
    requires -0x8000_0000 <= height * bpp < 0x8000_0000 && -0x8000_0000 <= width * bpp < 0x8000_0000
    requires (Extent(height, bpp) + 1) * Extent(width, bpp) < 0x8000_0000
    modifies bridge, inputRow, finalImage
    ensures var rows, w := Extent(height, bpp), Extent(width, 1);
      var words := ImageWords(old(bitmapData[..]), rows, w, bpp);
      && finalImage[..] == Scatter(old(finalImage[..]), ImageStores(rows, w, bpp),
                                   Answers(old(bridge.received), words, bridge.accelerator))
      && bridge.received == old(bridge.received) + words
      && bridge.accesses == old(bridge.accesses) + Exchanges(old(bridge.received), words, bridge.accelerator)
    ensures bpp > 0 ==> inputRow[..] == [0, 0, 0]
    ensures bpp == 0 ==> inputRow[..] == old(inputRow[..])
    ensures bridge.State().(inputRegister := old(bridge.inputRegister)) == old(bridge.State())
    ensures bridge.osCalls == old(bridge.osCalls)
    ensures bitmapData[..] == old(bitmapData[..])
  {
    var cols := width * bpp;
    var rows := height * bpp;
    LoopBounds(width, height, bpp);
    TimesIsProduct(Extent(width, 1), bpp);
    StreamLoop(bridge, bitmapData, inputRow, finalImage, rows, cols, bpp, Extent(height, bpp), Extent(width, 1));
  }
}
