/**
 * The 128-bit SIMD registers the kernels work on, the carry-less multiply
 * instruction (PCLMULQDQ), the lane shuffles, and the little-endian loads and
 * stores between byte buffers and registers.
 *
 * A register is a pair of 64-bit lanes (qwords).  Its value as a polynomial
 * over GF(2) is lo + x^64 * hi, bit i of the register being the coefficient
 * of x^i, exactly as the hardware treats it.
 */
module Blocks {
  import opened Gf2

  type Word = w: nat | w < 0x1_0000_0000_0000_0000
  type Byte = b: nat | b < 0x100

  const ByteBits: nat := 8
  const WordBits: nat := WordSize * ByteBits
  const BlockBits: nat := WordBits + WordBits
  /** Bytes in a 64-bit lane. */
  const WordSize: nat := 8

  lemma ByteWidth()
    ensures Pow2(ByteBits) == 0x100
  {
  }

  lemma WordWidth()
    ensures Pow2(WordBits) == 0x1_0000_0000_0000_0000
  {
    var b := ByteBits;
    Pow2Square(b, 0x100);
    Pow2Square(b + b, 0x1_0000);
    Pow2Square(4 * b, 0x1_0000_0000);
  }

  lemma BlockWidth()
    ensures Pow2(BlockBits) == 0x1_0000_0000_0000_0000_0000_0000_0000_0000
  {
    WordWidth();
    Pow2Square(WordBits, 0x1_0000_0000_0000_0000);
  }

  /** A Vector128<ulong>: lane 0 is lo, lane 1 is hi. */
  datatype Block = Block(lo: Word, hi: Word)

  const Zero: Block := Block(0, 0)

  /**
   * The low n bits of a xor b, computed bit lane by bit lane from the
   * lowest, as the vector unit does across a register.
   */
  function XorLanes(a: nat, b: nat, n: nat): nat
    decreases a + b + n
  {
    if n == 0 then 0 else 2 * XorLanes(a / 2, b / 2, n - 1) + (a + b) % 2
  }

  /** On operands of n bits, the lane-wise xor is the sum of polynomials. */
  lemma {:induction false} XorLanesIsXor(a: nat, b: nat, n: nat)
    requires a < Pow2(n) && b < Pow2(n)
    ensures XorLanes(a, b, n) == Xor(a, b)
    decreases n
  {
    if n > 0 {
      HalfBelow(a, Pow2(n - 1));
      HalfBelow(b, Pow2(n - 1));
      XorLanesIsXor(a / 2, b / 2, n - 1);
      XorUnfold(a, b);
      ParityOfSum(a, b);
    } else {
      assert a == 0 && b == 0;
    }
  }

  /** Halving keeps a number below half a bound. */
  lemma {:induction false} HalfBelow(a: nat, k: nat)
    requires a < 2 * k
    ensures a / 2 < k
  {
  }

  /** The low bit of a sum is the xor of the low bits. */
  lemma {:induction false} ParityOfSum(a: nat, b: nat)
    ensures (a + b) % 2 == (if a % 2 == b % 2 then 0 else 1)
  {
  }

  /** Xor of two 64-bit lanes. */
  function XorWord(a: Word, b: Word): Word
  {
    WordWidth();
    XorLanesIsXor(a, b, WordBits);
    XorBound(WordBits, a, b);
    XorLanes(a, b, WordBits)
  }

  lemma XorWordIsXor(a: Word, b: Word)
    ensures XorWord(a, b) == Xor(a, b)
  {
    WordWidth();
    XorLanesIsXor(a, b, WordBits);
  }

  lemma XorWordComm(a: Word, b: Word)
    ensures XorWord(a, b) == XorWord(b, a)
  {
    XorWordIsXor(a, b);
    XorWordIsXor(b, a);
    XorComm(a, b);
  }

  lemma XorWordAssoc(a: Word, b: Word, c: Word)
    ensures XorWord(XorWord(a, b), c) == XorWord(a, XorWord(b, c))
  {
    XorWordIsXor(a, b);
    XorWordIsXor(b, c);
    XorWordIsXor(XorWord(a, b), c);
    XorWordIsXor(a, XorWord(b, c));
    XorAssoc(a, b, c);
  }

  lemma XorWordZero(a: Word)
    ensures XorWord(a, 0) == a && XorWord(0, a) == a
  {
    XorWordIsXor(a, 0);
    XorWordIsXor(0, a);
    XorZero(a);
  }

  lemma XorWordSelf(a: Word)
    ensures XorWord(a, a) == 0
  {
    XorWordIsXor(a, a);
    XorSelf(a);
  }

  /** Sse2.Xor on two registers. */
  function XorBlock(a: Block, b: Block): Block
  {
    Block(XorWord(a.lo, b.lo), XorWord(a.hi, b.hi))
  }

  /** The polynomial held by a register. */
  function Val(b: Block): nat
  {
    b.lo + Shl(b.hi, WordBits)
  }

  lemma ValBound(b: Block)
    ensures Val(b) < Pow2(BlockBits)
  {
    WordWidth();
    JoinBound(b.lo, b.hi, WordBits, WordBits);
  }

  lemma ValInjective(a: Block, b: Block)
    requires Val(a) == Val(b)
    ensures a == b
  {
    WordWidth();
    JoinInjective(a.lo, a.hi, b.lo, b.hi, WordBits);
  }

  /** The register xor is the sum of the polynomials. */
  lemma ValXor(a: Block, b: Block)
    ensures Val(XorBlock(a, b)) == Xor(Val(a), Val(b))
  {
    XorWordIsXor(a.lo, b.lo);
    XorWordIsXor(a.hi, b.hi);
    WordWidth();
    XorSplit(WordBits, a.lo, a.hi, b.lo, b.hi);
  }

  lemma XorBlockComm(a: Block, b: Block)
    ensures XorBlock(a, b) == XorBlock(b, a)
  {
    XorWordComm(a.lo, b.lo);
    XorWordComm(a.hi, b.hi);
  }

  lemma XorBlockAssoc(a: Block, b: Block, c: Block)
    ensures XorBlock(XorBlock(a, b), c) == XorBlock(a, XorBlock(b, c))
  {
    XorWordAssoc(a.lo, b.lo, c.lo);
    XorWordAssoc(a.hi, b.hi, c.hi);
  }

  lemma XorBlockZero(a: Block)
    ensures XorBlock(a, Zero) == a && XorBlock(Zero, a) == a
  {
    XorWordZero(a.lo);
    XorWordZero(a.hi);
  }

  lemma XorBlockSelf(a: Block)
    ensures XorBlock(a, a) == Zero
  {
    XorWordSelf(a.lo);
    XorWordSelf(a.hi);
  }

  lemma DivideByWord(v: nat)
    requires v < 0x1_0000_0000_0000_0000_0000_0000_0000_0000
    ensures v / 0x1_0000_0000_0000_0000 < 0x1_0000_0000_0000_0000
    ensures v == v % 0x1_0000_0000_0000_0000 + 0x1_0000_0000_0000_0000 * (v / 0x1_0000_0000_0000_0000)
  {
  }

  lemma SplitByte(x: nat, c: nat, d: nat)
    requires c < 0x100 && x == c + 0x100 * d
    ensures x % 0x100 == c && x / 0x100 == d
  {
  }

  /** The register holding a polynomial of degree below 128. */
  function FromVal(v: nat): (r: Block)
    requires v < Pow2(BlockBits)
    ensures Val(r) == v
  {
    WordWidth(); BlockWidth();
    DivideByWord(v);
    var r := Block(v % 0x1_0000_0000_0000_0000, v / 0x1_0000_0000_0000_0000);
    ShlIsMul(r.hi, WordBits);
    r
  }

  /**
   * The carry-less product of the low n bits of a with b, one bit of a at a
   * time: the partial product of the higher bits shifted up by one, plus b
   * when the bit is set, kept to 128 bits.
   */
  function ClmulLanes(a: nat, b: nat, n: nat): nat
    decreases a + b + n
  {
    if n == 0 then 0
    else XorLanes(if a % 2 == 1 then b else 0, 2 * ClmulLanes(a / 2, b, n - 1), BlockBits)
  }

  /** On 64-bit operands the shift-and-add product is the polynomial product. */
  lemma {:induction false} ClmulLanesIsMul(a: nat, b: nat, n: nat)
    requires a < Pow2(n) && n <= WordBits && b < Pow2(WordBits)
    ensures ClmulLanes(a, b, n) == Mul(a, b)
    decreases n
  {
    if n > 0 {
      var low, rest := if a % 2 == 1 then b else 0, Mul(a / 2, b);
      ClmulLanesIsMul(a / 2, b, n - 1);
      MulBound(a / 2, b, n - 1, WordBits);
      assert Pow2(n + WordBits) == 2 * Pow2(n - 1 + WordBits);
      Pow2Monotone(n + WordBits, BlockBits);
      Pow2Monotone(WordBits, BlockBits);
      assert low < Pow2(BlockBits) && 2 * rest < Pow2(BlockBits);
      XorLanesIsXor(low, 2 * rest, BlockBits);
      MulUnfold(a, b);
    }
  }

  /** The 128-bit carry-less product of two 64-bit lanes. */
  function Clmul64(a: Word, b: Word): Block
  {
    WordWidth();
    ClmulLanesIsMul(a, b, WordBits);
    MulBound(a, b, WordBits, WordBits);
    FromVal(ClmulLanes(a, b, WordBits))
  }

  /** The instruction computes the product of the two lane polynomials. */
  lemma Clmul64Val(a: Word, b: Word)
    ensures Val(Clmul64(a, b)) == Mul(a, b)
  {
    WordWidth();
    ClmulLanesIsMul(a, b, WordBits);
  }

  /**
   * Pclmulqdq.CarrylessMultiply(a, b, imm): the carry-less product of one
   * lane of a, picked by bit 0 of imm, and one lane of b, picked by bit 4.
   */
  function CarrylessMultiply(a: Block, b: Block, imm: nat): (r: Block)
    ensures Val(r) == Mul(if imm % 2 == 1 then a.hi else a.lo, if imm / 16 % 2 == 1 then b.hi else b.lo)
  {
    var x, y := if imm % 2 == 1 then a.hi else a.lo, if imm / 16 % 2 == 1 then b.hi else b.lo;
    Clmul64Val(x, y);
    Clmul64(x, y)
  }

  /**
   * Sse2.ShiftLeftLogical128BitLane(x, 8): the register's sixteen bytes move
   * up eight places and zeros come in below.
   */
  function ShiftLeftBytes8(x: Block): Block
  {
    Block(0, x.lo)
  }

  /**
   * Sse2.ShiftRightLogical128BitLane(x, 8): the register's sixteen bytes move
   * down eight places and zeros come in above.
   */
  function ShiftRightBytes8(x: Block): Block
  {
    Block(x.hi, 0)
  }

  /**
   * Swapping the two lanes, as both Sse2.Shuffle(x.AsUInt32(), 78) and
   * Ssse3.AlignRight(x, x, 8) do: the high eight bytes come first.
   */
  function SwapHalves(x: Block): Block
  {
    Block(x.hi, x.lo)
  }

  // ---------------------------------------------------------------------
  // Bytes and registers
  // ---------------------------------------------------------------------

  /** Little-endian value of a byte string. */
  function LittleEndian(bs: seq<Byte>): nat
  {
    if |bs| == 0 then 0 else bs[0] + Shl(LittleEndian(bs[1..]), ByteBits)
  }

  lemma {:induction false} LittleEndianBound(bs: seq<Byte>)
    ensures LittleEndian(bs) < Pow2(ByteBits * |bs|)
  {
    if |bs| > 0 {
      LittleEndianBound(bs[1..]);
      ByteWidth();
      JoinBound(bs[0], LittleEndian(bs[1..]), ByteBits, ByteBits * (|bs| - 1));
    }
  }

  /** The n little-endian bytes of w (w taken modulo 256^n). */
  function WordBytes(w: nat, n: nat): (r: seq<Byte>)
    ensures |r| == n
    decreases w + n
  {
    if n == 0 then [] else [w % 0x100] + WordBytes(w / 0x100, n - 1)
  }

  lemma {:induction false} WordBytesRoundTrip(w: nat, n: nat)
    requires w < Pow2(ByteBits * n)
    ensures LittleEndian(WordBytes(w, n)) == w
  {
    if n > 0 {
      var r := WordBytes(w, n);
      assert r[1..] == WordBytes(w / 0x100, n - 1);
      ByteWidth();
      Pow2Add(ByteBits, ByteBits * (n - 1));
      assert w / 0x100 < Pow2(ByteBits * (n - 1));
      WordBytesRoundTrip(w / 0x100, n - 1);
      ShlIsMul(w / 0x100, ByteBits);
    }
  }

  /** The value of a concatenation: the second part sits above the first. */
  lemma {:induction false} LittleEndianAppend(a: seq<Byte>, b: seq<Byte>)
    ensures LittleEndian(a + b) == LittleEndian(a) + Shl(LittleEndian(b), ByteBits * |a|)
  {
    if |a| == 0 {
      assert a + b == b;
    } else {
      assert (a + b)[1..] == a[1..] + b;
      LittleEndianAppend(a[1..], b);
      ShlPlus(LittleEndian(a[1..]), Shl(LittleEndian(b), ByteBits * (|a| - 1)), ByteBits);
      ShlAdd(LittleEndian(b), ByteBits * (|a| - 1), ByteBits);
    }
  }

  lemma {:induction false} LittleEndianRoundTrip(bs: seq<Byte>)
    ensures WordBytes(LittleEndian(bs), |bs|) == bs
  {
    if |bs| > 0 {
      ByteWidth();
      ShlIsMul(LittleEndian(bs[1..]), ByteBits);
      LittleEndianRoundTrip(bs[1..]);
      assert bs == [bs[0]] + bs[1..];
    }
  }

  function LoadWord(bs: seq<Byte>): Word
    requires |bs| == 8
  {
    LittleEndianBound(bs);
    WordWidth();
    LittleEndian(bs)
  }

  /** Sse2.LoadVector128 of 16 bytes: the register holds their little-endian value. */
  function Load16(bs: seq<Byte>): (r: Block)
    requires |bs| == 16
    ensures Val(r) == LittleEndian(bs)
  {
    LittleEndianAppend(bs[..8], bs[8..]);
    assert bs[..8] + bs[8..] == bs;
    Block(LoadWord(bs[..8]), LoadWord(bs[8..]))
  }

  /** Sse2.Store of a register into 16 bytes, lowest byte first. */
  function Store16(b: Block): (r: seq<Byte>)
    ensures |r| == 16 && LittleEndian(r) == Val(b)
  {
    WordWidth();
    WordBytesRoundTrip(b.lo, WordSize);
    WordBytesRoundTrip(b.hi, WordSize);
    LittleEndianAppend(WordBytes(b.lo, WordSize), WordBytes(b.hi, WordSize));
    WordBytes(b.lo, WordSize) + WordBytes(b.hi, WordSize)
  }

  /**
   * The lane moves seen in memory: the 8-byte shifts move the sixteen bytes
   * of a register up or down by eight places with zeros coming in, and the
   * lane swap exchanges its two eight-byte halves.
   */
  lemma ByteShifts(x: Block)
    ensures Store16(ShiftLeftBytes8(x)) == Zeros(WordSize) + Store16(x)[..WordSize]
    ensures Store16(ShiftRightBytes8(x)) == Store16(x)[WordSize..] + Zeros(WordSize)
    ensures Store16(SwapHalves(x)) == Store16(x)[WordSize..] + Store16(x)[..WordSize]
  {
  }

  /** Sse2.Store into a 16-byte buffer. */
  method Store(dst: array<Byte>, b: Block)
    requires dst.Length == 16
    modifies dst
    ensures dst[..] == Store16(b)
  {
    var bs := Store16(b);
    forall i | 0 <= i < 16 {
      dst[i] := bs[i];
    }
  }

  /** Sse2.Store into the 16 bytes of a larger buffer that start at off. */
  method StoreAt(dst: array<Byte>, off: nat, b: Block)
    requires off + 16 <= dst.Length
    modifies dst
    ensures dst[off..off + 16] == Store16(b)
    ensures dst[..off] == old(dst[..off]) && dst[off + 16..] == old(dst[off + 16..])
  {
    var bs := Store16(b);
    forall i | 0 <= i < 16 {
      dst[off + i] := bs[i];
    }
  }

  lemma LoadStore(b: Block)
    ensures Load16(Store16(b)) == b
  {
    var s := Store16(b);
    assert s[..8] == WordBytes(b.lo, WordSize);
    assert s[8..] == WordBytes(b.hi, WordSize);
    WordWidth();
    WordBytesRoundTrip(b.lo, WordSize);
    WordBytesRoundTrip(b.hi, WordSize);
  }

  lemma StoreLoad(bs: seq<Byte>)
    requires |bs| == 16
    ensures Store16(Load16(bs)) == bs
  {
    LittleEndianRoundTrip(bs[..8]);
    LittleEndianRoundTrip(bs[8..]);
    assert bs == bs[..8] + bs[8..];
  }

  function XorByte(a: Byte, b: Byte): Byte
  {
    ByteWidth();
    XorBound(ByteBits, a, b);
    Xor(a, b)
  }

  /** Byte-wise xor of two equally long strings. */
  function XorBytes(a: seq<Byte>, b: seq<Byte>): (r: seq<Byte>)
    requires |a| == |b|
    ensures |r| == |a|
  {
    seq(|a|, i requires 0 <= i < |a| => XorByte(a[i], b[i]))
  }

  /** Xoring the same string twice gives back the original. */
  lemma XorBytesCancel(a: seq<Byte>, b: seq<Byte>)
    requires |a| == |b|
    ensures XorBytes(a, XorBytes(a, b)) == b
  {
    forall i | 0 <= i < |a|
      ensures XorBytes(a, XorBytes(a, b))[i] == b[i]
    {
      XorAssoc(a[i], a[i], b[i]);
      XorSelf(a[i]);
      XorZero(b[i]);
    }
  }

  /** Xor of two numbers, read byte by byte. */
  lemma {:induction false} WordBytesXor(a: nat, b: nat, n: nat)
    ensures WordBytes(Xor(a, b), n) == XorBytes(WordBytes(a, n), WordBytes(b, n))
  {
    if n > 0 {
      WordBytesXor(a / 0x100, b / 0x100, n - 1);
      ByteWidth();
      var ah, bh := a / 0x100, b / 0x100;
      var al, bl := a % 0x100, b % 0x100;
      ShlIsMul(ah, ByteBits);
      ShlIsMul(bh, ByteBits);
      SplitByte(a, al, ah);
      SplitByte(b, bl, bh);
      XorSplit(ByteBits, al, ah, bl, bh);
      XorBound(ByteBits, al, bl);
      ShlIsMul(Xor(ah, bh), ByteBits);
      SplitByte(Xor(a, b), Xor(al, bl), Xor(ah, bh));
    }
  }

  /** Storing the xor of two registers stores the byte-wise xor. */
  lemma StoreXor(a: Block, b: Block)
    ensures Store16(XorBlock(a, b)) == XorBytes(Store16(a), Store16(b))
  {
    XorWordIsXor(a.lo, b.lo);
    XorWordIsXor(a.hi, b.hi);
    WordBytesXor(a.lo, b.lo, WordSize);
    WordBytesXor(a.hi, b.hi, WordSize);
  }

  /** n zero bytes. */
  function Zeros(n: nat): (r: seq<Byte>)
    ensures |r| == n
  {
    seq(n, _ => 0)
  }

  /** A final partial block, zero-padded to 16 bytes. */
  function Pad16(m: seq<Byte>): (r: seq<Byte>)
    requires |m| <= 16
    ensures |r| == 16 && r[..|m|] == m
    ensures forall i :: |m| <= i < 16 ==> r[i] == 0
  {
    m + Zeros(16 - |m|)
  }

  /** A whole block needs no padding. */
  lemma PadFull(m: seq<Byte>)
    requires |m| == 16
    ensures Pad16(m) == m
  {
    assert Pad16(m) == Pad16(m)[..16];
  }
}
