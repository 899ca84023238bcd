/** Bytes, powers of two, and least-significant-bit-first packing of codes into bytes. */
module GifBits {
  import opened Arithmetic

  type Byte = n: int | 0 <= n < 256
  type Bits = seq<bool>

  function Pow2(n: nat): (p: nat)
    ensures p > 0
  {
    if n == 0 then 1 else 2 * Pow2(n - 1)
  }

  /** The w low bits of n, least significant first. */
  function BitsOf(n: nat, w: nat): (b: Bits)
    ensures |b| == w
  {
    if w == 0 then [] else [n % 2 == 1] + BitsOf(n / 2, w - 1)
  }

  /** The number a run of bits stands for, least significant first. */
  function Value(b: Bits): nat {
    if b == [] then 0 else (if b[0] then 1 else 0) + 2 * Value(b[1..])
  }

  /** The bit stream a byte stream carries. */
  function BytesBits(bytes: seq<Byte>): (b: Bits)
    ensures |b| == 8 * |bytes|
  {
    if bytes == [] then [] else BytesBits(bytes[..|bytes| - 1]) + BitsOf(bytes[|bytes| - 1], 8)
  }

  lemma {:induction false} ValueOfBits(n: nat, w: nat)
    requires n < Pow2(w)
    ensures Value(BitsOf(n, w)) == n
  {
    if w > 0 {
      ValueOfBits(n / 2, w - 1);
      assert BitsOf(n, w)[1..] == BitsOf(n / 2, w - 1);
    }
  }

  /** Reading one more bit after a number leaves it alone exactly when that bit is 0. */
  lemma {:induction false} ValueOfBitsThenOne(n: nat, w: nat, top: bool)
    requires n < Pow2(w)
    ensures Value(BitsOf(n, w) + [top]) == n + (if top then Pow2(w) else 0)
  {
    var b := BitsOf(n, w) + [top];
    if w == 0 {
      assert b == [top] && b[1..] == [];
    } else {
      ValueOfBitsThenOne(n / 2, w - 1, top);
      assert b[1..] == BitsOf(n / 2, w - 1) + [top];
      assert b[0] == (n % 2 == 1);
    }
  }

  lemma Twice(p: nat, b: nat)
    ensures (2 * p) * b == 2 * (p * b)
  {
  }

  /** Placing b above the k low bits of a: what `a | (b << k)` does for a < 2^k. */
  lemma {:induction false} BitsConcat(a: nat, k: nat, b: nat, w: nat)
    requires a < Pow2(k)
    ensures BitsOf(a + Pow2(k) * b, k + w) == BitsOf(a, k) + BitsOf(b, w)
  {
    if k == 0 {
      assert a + Pow2(k) * b == b;
    } else {
      BitsConcat(a / 2, k - 1, b, w);
      var high := Pow2(k - 1) * b;
      Twice(Pow2(k - 1), b);
      var n := a + 2 * high;
      assert n % 2 == a % 2 && n / 2 == a / 2 + high;
    }
  }

  /** Bits above the top of a number are zero. */
  lemma {:induction false} BitsPad(n: nat, w: nat, more: nat)
    requires n < Pow2(w)
    ensures BitsOf(n, w + more) == BitsOf(n, w) + Zeros(more)
  {
    BitsConcat(n, w, 0, more);
    BitsOfZero(more);
  }

  function Zeros(n: nat): (b: Bits)
    ensures |b| == n
  {
    seq(n, _ => false)
  }

  lemma BitsOfZero(w: nat)
    ensures BitsOf(0, w) == Zeros(w)
  {
  }

  lemma Pow2Values()
    ensures Pow2(2) == 4 && Pow2(3) == 8 && Pow2(4) == 16 && Pow2(5) == 32 && Pow2(6) == 64 && Pow2(7) == 128
    ensures Pow2(8) == 256 && Pow2(9) == 512 && Pow2(10) == 1024 && Pow2(11) == 2048 && Pow2(12) == 4096
  {
  }

  lemma {:induction false} Pow2Sum(a: nat, b: nat)
    ensures Pow2(a + b) == Pow2(a) * Pow2(b)
  {
    if a > 0 {
      Pow2Sum(a - 1, b);
    }
  }

  lemma Pow2Grows(a: nat, b: nat)
    requires a <= b
    ensures Pow2(a) <= Pow2(b)
  {
  }

  /** The pending bits of the compressor: the closure `emit` over `raw`, `bitBuf` and `bitCount`. */
  class BitPacker {
    var raw: seq<Byte>
    var bitBuf: nat
    var bitCount: nat

    ghost predicate Valid()
      reads this
    {
      bitCount < 8 && bitBuf < Pow2(bitCount)
    }

    /** Everything emitted so far, as bits. */
    ghost function Emitted(): (b: Bits)
      reads this
      ensures |b| == 8 * |raw| + bitCount
    {
      BytesBits(raw) + BitsOf(bitBuf, bitCount)
    }

    constructor ()
      ensures Valid() && Emitted() == []
    {
      raw, bitBuf, bitCount := [], 0, 0;
    }

    method Emit(code: nat, codeSize: nat)
      requires Valid() && code < Pow2(codeSize)
      modifies this
      ensures Valid()
      ensures Emitted() == old(Emitted()) + BitsOf(code, codeSize)
    {
      BelowConcat(bitBuf, bitCount, code, codeSize);
      var shifted := Pow2(bitCount) * code;
      bitBuf := bitBuf + shifted;
      bitCount := bitCount + codeSize;
      while bitCount >= 8
        invariant bitBuf < Pow2(bitCount)
        invariant Emitted() == old(Emitted()) + BitsOf(code, codeSize)
      {
        TakeByte(raw, bitBuf, bitCount);
        raw := raw + [bitBuf % 256];
        bitBuf := bitBuf / 256;
        bitCount := bitCount - 8;
      }
    }

    /** The last partial byte, padded with zero bits. */
    method Flush()
      requires Valid()
      modifies this
      ensures |old(Emitted())| <= 8 * |raw| < |old(Emitted())| + 8
      ensures BytesBits(raw) == old(Emitted()) + Zeros(8 * |raw| - |old(Emitted())|)
    {
      if bitCount > 0 {
        LastByte(bitBuf, bitCount);
        ghost var was := raw;
        raw := raw + [bitBuf % 256];
        assert raw[..|raw| - 1] == was;
      }
    }
  }

  lemma BelowConcat(a: nat, k: nat, b: nat, w: nat)
    requires a < Pow2(k) && b < Pow2(w)
    ensures a + Pow2(k) * b < Pow2(k + w)
    ensures BitsOf(a + Pow2(k) * b, k + w) == BitsOf(a, k) + BitsOf(b, w)
  {
    BitsConcat(a, k, b, w);
    Pow2Sum(k, w);
    MulMono(Pow2(k), b, Pow2(w) - 1);
    OneMore(Pow2(k), Pow2(w) - 1);
  }

  lemma LastByte(n: nat, k: nat)
    requires k < 8 && n < Pow2(k)
    ensures BitsOf(n % 256, 8) == BitsOf(n, k) + Zeros(8 - k)
  {
    BelowByte(n, k);
    BitsPad(n, k, 8 - k);
    assert k + (8 - k) == 8;
  }

  lemma BelowByte(n: nat, k: nat)
    requires k < 8 && n < Pow2(k)
    ensures n % 256 == n
  {
    Pow2Values();
    Pow2Grows(k, 8);
  }

  lemma LowByte(n: nat, k: nat)
    requires k >= 8
    ensures BitsOf(n, k) == BitsOf(n % 256, 8) + BitsOf(n / 256, k - 8)
  {
    assert Pow2(8) == 256 by {
      Pow2Values();
    }
    BitsConcat(n % 256, 8, n / 256, k - 8);
  }

  lemma TakeByte(raw: seq<Byte>, n: nat, k: nat)
    requires k >= 8 && n < Pow2(k)
    ensures BytesBits(raw) + BitsOf(n, k) == BytesBits(raw + [n % 256]) + BitsOf(n / 256, k - 8)
    ensures n / 256 < Pow2(k - 8)
  {
    LowByte(n, k);
    HighPart(n, k);
    var more := raw + [n % 256];
    assert more[..|more| - 1] == raw;
  }

  lemma HighPart(n: nat, k: nat)
    requires k >= 8 && n < Pow2(k)
    ensures n / 256 < Pow2(k - 8)
  {
    Pow2Values();
    Pow2Sum(8, k - 8);
  }

  /** On machine words with clear low bits, the source's `|` is the addition used above. */
  lemma OrIsAdd(bitBuf: bv32, code: bv32, bitCount: bv32)
    requires bitCount < 8 && bitBuf < 1 << bitCount && code < 4096
    ensures bitBuf | (code << bitCount) == bitBuf + (code << bitCount)
    ensures bitBuf | (code << bitCount) < 0x80000
  {
  }
}
