/** prepareDataforTx of the FPGA program: the bytes of the sample window are
    folded, most significant first, into a uint32_t by shifting the
    accumulator left eight bits and or-ing in the next byte. */
module WindowPacking {
  import opened Bytes
  import opened BmpLayout
  import opened PixelLayout

  const WORD_MODULUS: nat := 0x1_0000_0000

  /** acc << 8 on a uint32_t: the top byte falls off, the low byte is clear. */
  function ShiftLeft8(acc: Dword): (r: Dword)
    ensures r % 0x100 == 0
  {
    (acc * 0x100) % WORD_MODULUS
  }

  /** acc | b for an accumulator whose low byte is clear: the byte lands in it. */
  function OrLowByte(acc: Dword, b: byte): (r: Dword)
    requires acc % 0x100 == 0
    ensures r % 0x100 == b as int && r / 0x100 == acc / 0x100
  {
    acc + b as int
  }

  /** The two bit-level identities the arithmetic model relies on, on 32-bit words. */
  lemma ShiftOrMeaning(v: bv32, b: bv32)
    requires b < 0x100
    ensures (v << 8) & 0xFF == 0
    ensures (v << 8) | b == (v << 8) + b
  {
  }

  /** The accumulator after the first n iterations of the loop. */
  function Packed(data: seq<byte>, n: nat): Dword
    requires n <= |data|
  {
    if n == 0 then 0 else OrLowByte(ShiftLeft8(Packed(data, n - 1)), data[n - 1])
  }

  /** What prepareDataforTx returns for these bytes. */
  function Pack(data: seq<byte>): Dword
  {
    Packed(data, |data|)
  }

  /** The loop of prepareDataforTx(inputData, size). */
  method PrepareDataForTx(inputData: array<byte>, size: nat) returns (word: Dword)
    requires size < 0x100 && size <= inputData.Length
    ensures word == Pack(inputData[..size])
  {
    ghost var data := inputData[..size];
    var i := 0;
    word := 0;
    while i < size
      invariant 0 <= i <= size && word == Packed(data, i)
    {
      word := ShiftLeft8(word);
      word := OrLowByte(word, inputData[i]);
      i := i + 1;
    }
  }

  // ---------------------------------------------------------------------
  // What the packed word is

  /** The bytes read as one unbounded big-endian number. */
  function Value(data: seq<byte>): nat
  {
    if |data| == 0 then 0 else Value(data[..|data| - 1]) * 0x100 + data[|data| - 1] as int
  }

  /** One loop step on the reduced accumulator agrees with reducing after the step. */
  lemma StepModulo(a: nat, b: nat)
    requires b < 0x100
    ensures ((a % WORD_MODULUS) * 0x100) % WORD_MODULUS + b == (a * 0x100 + b) % WORD_MODULUS
  {
    var m := WORD_MODULUS;
    var q, r := a / m, a % m;
    var q2, x := (r * 0x100) / m, (r * 0x100) % m;
    assert x == 0x100 * (r - q2 * 0x100_0000);
    assert x + b < m;
    assert a * 0x100 + b == (q * 0x100 + q2) * m + (x + b);
    DivModUnique(a * 0x100 + b, m, q * 0x100 + q2, x + b);
  }

  lemma {:induction false} PackedIsValueModulo(data: seq<byte>, n: nat)
    requires n <= |data|
    ensures Packed(data, n) == Value(data[..n]) % WORD_MODULUS
  {
    if n > 0 {
      PackedIsValueModulo(data, n - 1);
      assert data[..n][..n - 1] == data[..n - 1];
      StepModulo(Value(data[..n - 1]), data[n - 1] as int);
    }
  }

  /** prepareDataforTx computes sum of inputData[i] * 256^(size-1-i), modulo 2^32. */
  lemma PackIsValueModulo(data: seq<byte>)
    ensures Pack(data) == Value(data) % WORD_MODULUS
  {
    PackedIsValueModulo(data, |data|);
    assert data[..|data|] == data;
  }

  /** For the three-byte window: (b0 << 16) | (b1 << 8) | b2, below 2^24, and
      each byte comes back out by shifting and masking. */
  lemma PackWindow(data: seq<byte>)
    requires |data| == SIZE_BUFFER
    ensures Pack(data) == data[0] as int * 0x1_0000 + data[1] as int * 0x100 + data[2] as int
    ensures Pack(data) < 0x100_0000
    ensures Pack(data) / 0x1_0000 == data[0] as int
    ensures (Pack(data) / 0x100) % 0x100 == data[1] as int
    ensures Pack(data) % 0x100 == data[2] as int
  {
    assert Packed(data, 1) == data[0] as int;
    assert Packed(data, 2) == data[0] as int * 0x100 + data[1] as int;
  }

  function Power256(n: nat): (r: nat)
    ensures r > 0
  {
    if n == 0 then 1 else Power256(n - 1) * 0x100
  }

  lemma {:induction false} ValueAppend(s: seq<byte>, t: seq<byte>)
    ensures Value(s + t) == Value(s) * Power256(|t|) + Value(t)
    decreases |t|
  {
    if |t| > 0 {
      var t' := t[..|t| - 1];
      assert (s + t)[..|s + t| - 1] == s + t';
      ValueAppend(s, t');
      var last := t[|t| - 1] as int;
      assert Value(s + t) == Value(s + t') * 0x100 + last;
      assert Value(t) == Value(t') * 0x100 + last;
      assert Power256(|t|) == Power256(|t'|) * 0x100;
      ShiftByte(Value(s), Power256(|t'|), Value(t'));
    } else {
      assert s + t == s;
    }
  }

  lemma ShiftByte(a: int, p: int, b: int)
    ensures (a * p + b) * 0x100 == a * (p * 0x100) + b * 0x100
  {
  }

  lemma {:induction false} ValueBound(data: seq<byte>)
    ensures Value(data) < Power256(|data|)
  {
    if |data| > 0 {
      ValueBound(data[..|data| - 1]);
    }
  }

  /** For more than four bytes only the last four matter: the earlier ones
      are shifted out of the 32-bit accumulator. */
  lemma OnlyLastFourBytesMatter(data: seq<byte>)
    requires |data| >= 4
    ensures Pack(data) == Pack(data[|data| - 4..])
    ensures Pack(data) == Value(data[|data| - 4..])
  {
    var s, t := data[..|data| - 4], data[|data| - 4..];
    assert s + t == data;
    ValueAppend(s, t);
    ValueBound(t);
    assert Power256(4) == WORD_MODULUS;
    PackIsValueModulo(data);
    PackIsValueModulo(t);
    DivModUnique(Value(data), WORD_MODULUS, Value(s), Value(t));
    DivModUnique(Value(t), WORD_MODULUS, 0, Value(t));
  }
}
