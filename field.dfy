/**
 * The POLYVAL field multiplication as the kernels compute it: four 64-bit
 * carry-less products, their combination into a 256-bit product, and the
 * two-round Montgomery reduction by the constant `poly`.  The algebraic laws
 * proved here (the reduction's congruence, commutativity, distributivity,
 * associativity and the linearity of the deferred reduction) are what make
 * the batched and the Horner evaluations agree.
 */
module Field {
  import opened Gf2
  import opened Blocks

  /** `poly`: the 32-bit lanes (1, 0, 0, 0xc2000000), read as two 64-bit lanes. */
  const Poly: Block := Block(1, 0xc200_0000_0000_0000)

  /** x^128 + x^127 + x^126 + x^121 + 1, the POLYVAL field polynomial. */
  const Modulus: nat := 0x1_c200_0000_0000_0000_0000_0000_0000_0001

  /** A 256-bit value held in two registers: lo is the low half, hi the high half. */
  datatype Wide = Wide(lo: Block, hi: Block)

  function WideVal(w: Wide): nat
  {
    Val(w.lo) + Shl(Val(w.hi), BlockBits)
  }

  /**
   * Three product accumulators of the batched kernels: lo collects the
   * lo-by-lo lane products, hi the hi-by-hi ones, and mid the cross products.
   */
  datatype Acc = Acc(lo: Block, hi: Block, mid: Block)

  /** The 256-bit polynomial an accumulator stands for. */
  function AccVal(a: Acc): nat
  {
    Xor(Xor(Val(a.lo), Shl(Val(a.mid), WordBits)), Shl(Val(a.hi), BlockBits))
  }

  /** The four lane products of one block d and one key power h. */
  function Product(d: Block, h: Block): Acc
  {
    Acc(CarrylessMultiply(d, h, 0x00),
        CarrylessMultiply(d, h, 0x11),
        XorBlock(CarrylessMultiply(d, h, 0x01), CarrylessMultiply(d, h, 0x10)))
  }

  function AccXor(a: Acc, b: Acc): Acc
  {
    Acc(XorBlock(a.lo, b.lo), XorBlock(a.hi, b.hi), XorBlock(a.mid, b.mid))
  }

  /**
   * Adding the product of d and h into the accumulators, one lane product
   * at a time as the batched loops do: the middle one takes the 0x01
   * product first and the 0x10 product after it.
   */
  function Absorb(a: Acc, d: Block, h: Block): Acc
  {
    Acc(XorBlock(a.lo, CarrylessMultiply(d, h, 0x00)),
        XorBlock(a.hi, CarrylessMultiply(d, h, 0x11)),
        XorBlock(XorBlock(a.mid, CarrylessMultiply(d, h, 0x01)), CarrylessMultiply(d, h, 0x10)))
  }

  /** Folding the middle accumulator into the low and high halves. */
  function Combine(a: Acc): Wide
  {
    Wide(XorBlock(a.lo, ShiftLeftBytes8(a.mid)), XorBlock(ShiftRightBytes8(a.mid), a.hi))
  }

  /**
   * One reduction round: swap the lanes and add lo times the constant's high
   * lane. It divides by x^64 modulo the field polynomial: the result, shifted
   * back up by 64, differs from t by exactly t.lo times the polynomial.
   */
  function ReduceStep(t: Block): (r: Block)
    ensures Xor(Shl(Val(r), WordBits), Val(t)) == Mul(t.lo, Modulus)
  {
    var r := XorBlock(SwapHalves(t), CarrylessMultiply(t, Poly, 0x10));
    ReduceStepExact(t, r);
    r
  }

  /** Two reduction rounds on the low half, then the high half added. */
  function Reduce(w: Wide): Block
  {
    XorBlock(w.hi, ReduceStep(ReduceStep(w.lo)))
  }

  /** The field multiplication, instruction by instruction as the kernels write it. */
  function Dot(t: Block, h: Block): Block
  {
    var lo := CarrylessMultiply(t, h, 0x00);
    var hi := CarrylessMultiply(t, h, 0x11);
    var mid := XorBlock(CarrylessMultiply(t, h, 0x10), CarrylessMultiply(t, h, 0x01));
    var low := XorBlock(ShiftLeftBytes8(mid), lo);
    var high := XorBlock(hi, ShiftRightBytes8(mid));
    var once := XorBlock(SwapHalves(low), CarrylessMultiply(low, Poly, 0x10));
    var twice := XorBlock(SwapHalves(once), CarrylessMultiply(once, Poly, 0x10));
    XorBlock(high, twice)
  }

  // ---------------------------------------------------------------------
  // What the pieces compute
  // ---------------------------------------------------------------------

  lemma ModulusShape()
    ensures Modulus == Xor(Xor(1, Shl(Poly.hi, WordBits)), Shl(1, BlockBits))
    ensures Modulus % 2 == 1 && Pow2(BlockBits) <= Modulus < Pow2(BlockBits + 1)
  {
    WordWidth(); BlockWidth();
    assert Pow2(BlockBits + 1) == 2 * Pow2(BlockBits);
    ShlIsMul(Poly.hi, WordBits);
    ShlOne(BlockBits);
    JoinIsXor(1, Poly.hi, WordBits);
    assert 1 + Shl(Poly.hi, WordBits) < Pow2(BlockBits);
    JoinIsXor(1 + Shl(Poly.hi, WordBits), 1, BlockBits);
  }

  /** Multiplying by the field polynomial: lo * P == lo + x^64 (lo * c) + x^128 lo. */
  lemma MulModulus(lo: nat)
    ensures Mul(lo, Modulus) == Xor(Xor(lo, Shl(Mul(lo, Poly.hi), WordBits)), Shl(lo, BlockBits))
  {
    ModulusShape();
    var c := Poly.hi;
    MulDistRight(lo, Xor(1, Shl(c, WordBits)), Shl(1, BlockBits));
    MulDistRight(lo, 1, Shl(c, WordBits));
    MulOneRight(lo);
    MulShlRight(lo, c, WordBits);
    MulShlRight(lo, 1, BlockBits);
  }

  /** The value of one reduction round, shifted up by 64. */
  lemma ReduceStepShifted(t: Block, r: Block)
    requires r == XorBlock(SwapHalves(t), CarrylessMultiply(t, Poly, 0x10))
    ensures Shl(Val(r), WordBits)
         == Xor(Xor(Shl(t.hi, WordBits), Shl(t.lo, BlockBits)), Shl(Mul(t.lo, Poly.hi), WordBits))
  {
    var lo, hi := t.lo, t.hi;
    var m := Mul(lo, Poly.hi);
    WordWidth();
    Clmul64Val(lo, Poly.hi);
    ValXor(SwapHalves(t), CarrylessMultiply(t, Poly, 0x10));
    assert Val(r) == Xor(hi + Shl(lo, WordBits), m);
    ShiftedSwap(lo, hi, m, WordBits);
  }

  /** The round's exact algebraic effect, which ReduceStep's contract states. */
  lemma ReduceStepExact(t: Block, r: Block)
    requires r == XorBlock(SwapHalves(t), CarrylessMultiply(t, Poly, 0x10))
    ensures Xor(Shl(Val(r), WordBits), Val(t)) == Mul(t.lo, Modulus)
  {
    ReduceStepShifted(t, r);
    WordWidth();
    RoundAlgebra(t.lo, t.hi, Shl(Val(r), WordBits));
  }

  lemma RoundAlgebra(lo: nat, hi: nat, shifted: nat)
    requires lo < Pow2(WordBits)
    requires shifted == Xor(Xor(Shl(hi, WordBits), Shl(lo, BlockBits)), Shl(Mul(lo, Poly.hi), WordBits))
    ensures Xor(shifted, lo + Shl(hi, WordBits)) == Mul(lo, Modulus)
  {
    var a, b, c := Shl(hi, WordBits), Shl(lo, BlockBits), Shl(Mul(lo, Poly.hi), WordBits);
    JoinIsXor(lo, hi, WordBits);
    XorShuffle(a, b, c, lo);
    MulModulus(lo);
  }

  /** The two rounds of a reduction divide the low half by x^128. */
  lemma ReduceLowDiff(t1: Block) returns (q: nat)
    ensures DifferBy(Shl(Val(ReduceStep(ReduceStep(t1))), BlockBits), Val(t1), q, Modulus)
  {
    var t2 := ReduceStep(t1);
    var t3 := ReduceStep(t2);
    // x^128 t3 ~ x^64 t2 ~ t1
    DiffShl(Shl(Val(t3), WordBits), Val(t2), WordBits, t2.lo, Modulus);
    ShlAdd(Val(t3), WordBits, WordBits);
    DiffTrans(Shl(Val(t3), BlockBits), Shl(Val(t2), WordBits), Val(t1), Shl(t2.lo, WordBits), t1.lo, Modulus);
    q := Xor(Shl(t2.lo, WordBits), t1.lo);
  }

  /** A 256-bit value is the sum of its low half and its shifted high half. */
  lemma WideAsXor(w: Wide)
    ensures WideVal(w) == Xor(Val(w.lo), Shl(Val(w.hi), BlockBits))
  {
    ValBound(w.lo);
    JoinIsXor(Val(w.lo), Val(w.hi), BlockBits);
  }

  /** Reducing a 256-bit value divides it by x^128 modulo the field polynomial. */
  lemma ReduceDiff(w: Wide) returns (q: nat)
    ensures DifferBy(Shl(Val(Reduce(w)), BlockBits), WideVal(w), q, Modulus)
  {
    var t3 := ReduceStep(ReduceStep(w.lo));
    q := ReduceLowDiff(w.lo);
    // the high half rides along unchanged
    var hv := Shl(Val(w.hi), BlockBits);
    DiffAddBoth(hv, Shl(Val(t3), BlockBits), Val(w.lo), q, Modulus);
    ValXor(w.hi, t3);
    XorShl(Val(w.hi), Val(t3), BlockBits);
    WideAsXor(w);
    XorComm(hv, Val(w.lo));
  }


  /** A register shifted up by one lane splits into its two shifted lanes. */
  lemma LaneShift(m: Block)
    ensures Shl(Val(m), WordBits) == Xor(Shl(m.lo, WordBits), Shl(m.hi, BlockBits))
  {
    WordWidth();
    JoinIsXor(m.lo, m.hi, WordBits);
    XorShl(m.lo, Shl(m.hi, WordBits), WordBits);
    ShlAdd(m.hi, WordBits, WordBits);
  }

  /** The two halves Combine produces. */
  lemma CombineHalves(a: Acc)
    ensures Val(Combine(a).lo) == Xor(Val(a.lo), Shl(a.mid.lo, WordBits))
    ensures Val(Combine(a).hi) == Xor(a.mid.hi, Val(a.hi))
  {
    ShlZero(WordBits);
    ValXor(a.lo, ShiftLeftBytes8(a.mid));
    ValXor(ShiftRightBytes8(a.mid), a.hi);
  }

  /** Combining the accumulators preserves the product they hold. */
  lemma CombineVal(a: Acc)
    ensures WideVal(Combine(a)) == AccVal(a)
  {
    var w := Combine(a);
    var ml, mh := a.mid.lo, a.mid.hi;
    var vl, vh := Val(a.lo), Val(a.hi);
    WideAsXor(w);
    CombineHalves(a);
    XorShl(mh, vh, BlockBits);
    LaneShift(a.mid);
    XorRegroup(vl, Shl(ml, WordBits), Shl(mh, BlockBits), Shl(vh, BlockBits));
  }

  /** The accumulators of one product, as a sum of the four lane products. */
  lemma ProductParts(d: Block, h: Block)
    ensures AccVal(Product(d, h))
         == Xor(Xor(Mul(d.lo, h.lo), Xor(Shl(Mul(d.hi, h.lo), WordBits), Shl(Mul(d.lo, h.hi), WordBits))),
                Shl(Mul(d.hi, h.hi), BlockBits))
  {
    var p := Product(d, h);
    var c01, c10 := CarrylessMultiply(d, h, 0x01), CarrylessMultiply(d, h, 0x10);
    assert p.lo == Clmul64(d.lo, h.lo) && p.hi == Clmul64(d.hi, h.hi);
    assert p.mid == XorBlock(c01, c10);
    assert c01 == Clmul64(d.hi, h.lo) && c10 == Clmul64(d.lo, h.hi);
    Clmul64Val(d.lo, h.lo);
    Clmul64Val(d.hi, h.lo);
    Clmul64Val(d.lo, h.hi);
    Clmul64Val(d.hi, h.hi);
    ValXor(c01, c10);
    assert Val(p.mid) == Xor(Mul(d.hi, h.lo), Mul(d.lo, h.hi));
    XorShl(Mul(d.hi, h.lo), Mul(d.lo, h.hi), WordBits);
  }

  /** The schoolbook product of two registers, lane by lane. */
  lemma Schoolbook(d: Block, h: Block)
    ensures Mul(Val(d), Val(h))
         == Xor(Xor(Mul(d.lo, h.lo), Shl(Mul(d.lo, h.hi), WordBits)),
                Xor(Shl(Mul(d.hi, h.lo), WordBits), Shl(Mul(d.hi, h.hi), BlockBits)))
  {
    WordWidth();
    JoinIsXor(d.lo, d.hi, WordBits);
    JoinIsXor(h.lo, h.hi, WordBits);
    MulDigits(d.lo, d.hi, h.lo, h.hi, WordBits);
  }

  /** The four lane products hold the full 256-bit carry-less product. */
  lemma ProductVal(d: Block, h: Block)
    ensures AccVal(Product(d, h)) == Mul(Val(d), Val(h))
  {
    var b1, b2 := Mul(d.lo, h.lo), Shl(Mul(d.lo, h.hi), WordBits);
    var b3, b4 := Shl(Mul(d.hi, h.lo), WordBits), Shl(Mul(d.hi, h.hi), BlockBits);
    ProductParts(d, h);
    Schoolbook(d, h);
    XorComm(b3, b2);
    XorRegroup(b1, b2, b3, b4);
  }

  /** Adding accumulators adds the products they hold. */
  lemma AccXorVal(a: Acc, b: Acc)
    ensures AccVal(AccXor(a, b)) == Xor(AccVal(a), AccVal(b))
  {
    ValXor(a.lo, b.lo);
    ValXor(a.hi, b.hi);
    ValXor(a.mid, b.mid);
    XorShl(Val(a.mid), Val(b.mid), WordBits);
    XorShl(Val(a.hi), Val(b.hi), BlockBits);
    var x1, x2, x3 := Val(a.lo), Shl(Val(a.mid), WordBits), Shl(Val(a.hi), BlockBits);
    var y1, y2, y3 := Val(b.lo), Shl(Val(b.mid), WordBits), Shl(Val(b.hi), BlockBits);
    var lhs := Xor(Xor(Xor(x1, y1), Xor(x2, y2)), Xor(x3, y3));
    var rhs := Xor(Xor(Xor(x1, x2), x3), Xor(Xor(y1, y2), y3));
    forall i: nat
      ensures Bit(lhs, i) == Bit(rhs, i)
    {
      BitXor(Xor(Xor(x1, y1), Xor(x2, y2)), Xor(x3, y3), i);
      BitXor(Xor(x1, y1), Xor(x2, y2), i);
      BitXor(x1, y1, i);
      BitXor(x2, y2, i);
      BitXor(x3, y3, i);
      BitXor(Xor(Xor(x1, x2), x3), Xor(Xor(y1, y2), y3), i);
      BitXor(Xor(x1, x2), x3, i);
      BitXor(x1, x2, i);
      BitXor(Xor(y1, y2), y3, i);
      BitXor(y1, y2, i);
    }
    BitsEqual(lhs, rhs);
  }

  /** The single-block kernel is the accumulate, combine, reduce pipeline on one product. */
  lemma DotIsReducedProduct(t: Block, h: Block)
    ensures Dot(t, h) == Reduce(Combine(Product(t, h)))
  {
    XorBlockComm(CarrylessMultiply(t, h, 0x10), CarrylessMultiply(t, h, 0x01));
    var mid := XorBlock(CarrylessMultiply(t, h, 0x10), CarrylessMultiply(t, h, 0x01));
    XorBlockComm(ShiftLeftBytes8(mid), CarrylessMultiply(t, h, 0x00));
    XorBlockComm(CarrylessMultiply(t, h, 0x11), ShiftRightBytes8(mid));
  }

  lemma DotDiff(a: Block, b: Block) returns (q: nat)
    ensures DifferBy(Shl(Val(Dot(a, b)), BlockBits), Mul(Val(a), Val(b)), q, Modulus)
  {
    DotIsReducedProduct(a, b);
    q := ReduceDiff(Combine(Product(a, b)));
    CombineVal(Product(a, b));
    ProductVal(a, b);
  }

  /**
   * The field multiplication divides the carry-less product by x^128 modulo
   * the field polynomial: x^128 * Dot(a, b) == a * b.
   */
  lemma DotCongruent(a: Block, b: Block)
    ensures Congruent(Shl(Val(Dot(a, b)), BlockBits), Mul(Val(a), Val(b)), Modulus)
  {
    var q := DotDiff(a, b);
    CongruentByQuotient(Shl(Val(Dot(a, b)), BlockBits), Mul(Val(a), Val(b)), q, Modulus);
  }

  /** Registers are equal when their values times x^k agree modulo the polynomial. */
  lemma SameResidue(u: Block, v: Block, k: nat, q: nat)
    requires DifferBy(Shl(Val(u), k), Shl(Val(v), k), q, Modulus)
    ensures u == v
  {
    ModulusShape();
    ValBound(u);
    ValBound(v);
    ShiftedResiduesEqual(Val(u), Val(v), k, q, Modulus, BlockBits);
    ValInjective(u, v);
  }

  /**
   * The POLYVAL product of RFC 8452, section 3: dot(a, b) = a * b * x^-128,
   * the block whose value times x^128 is congruent to a * b modulo the field
   * polynomial.
   */
  ghost function Mult(a: Block, b: Block): Block
  {
    DotCongruent(a, b);
    var u :| Congruent(Shl(Val(u), BlockBits), Mul(Val(a), Val(b)), Modulus);
    u
  }

  /** The kernel's instruction sequence computes the POLYVAL product. */
  lemma DotIsMult(a: Block, b: Block)
    ensures Dot(a, b) == Mult(a, b)
  {
    var u := Mult(a, b);
    var p := Mul(Val(a), Val(b));
    var qu: nat :| Xor(Shl(Val(u), BlockBits), p) == Mul(qu, Modulus);
    var qd := DotDiff(a, b);
    DiffSym(Shl(Val(u), BlockBits), p, qu, Modulus);
    DiffTrans(Shl(Val(Dot(a, b)), BlockBits), p, Shl(Val(u), BlockBits), qd, qu, Modulus);
    SameResidue(Dot(a, b), u, BlockBits, Xor(qd, qu));
  }

  /** Deferring the reduction: reducing a sum of accumulators is the sum of their reductions. */
  lemma ReduceAccXor(a: Acc, b: Acc)
    ensures Reduce(Combine(AccXor(a, b))) == XorBlock(Reduce(Combine(a)), Reduce(Combine(b)))
  {
    var u := Reduce(Combine(AccXor(a, b)));
    var ra, rb := Reduce(Combine(a)), Reduce(Combine(b));
    var v := XorBlock(ra, rb);
    var qu := ReduceDiff(Combine(AccXor(a, b)));
    var qa := ReduceDiff(Combine(a));
    var qb := ReduceDiff(Combine(b));
    CombineVal(AccXor(a, b));
    CombineVal(a);
    CombineVal(b);
    AccXorVal(a, b);
    DiffXor(Shl(Val(ra), BlockBits), AccVal(a), Shl(Val(rb), BlockBits), AccVal(b), qa, qb, Modulus);
    ValXor(ra, rb);
    XorShl(Val(ra), Val(rb), BlockBits);
    var s := AccVal(AccXor(a, b));
    DiffSym(Shl(Val(v), BlockBits), s, Xor(qa, qb), Modulus);
    DiffTrans(Shl(Val(u), BlockBits), s, Shl(Val(v), BlockBits), qu, Xor(qa, qb), Modulus);
    SameResidue(u, v, BlockBits, Xor(qu, Xor(qa, qb)));
  }

  /** Absorbing d * h into the accumulators adds Dot(d, h) to their reduction. */
  lemma AbsorbDot(a: Acc, d: Block, h: Block)
    ensures Reduce(Combine(Absorb(a, d, h))) == XorBlock(Reduce(Combine(a)), Dot(d, h))
  {
    XorBlockAssoc(a.mid, CarrylessMultiply(d, h, 0x01), CarrylessMultiply(d, h, 0x10));
    assert Absorb(a, d, h) == AccXor(a, Product(d, h));
    ReduceAccXor(a, Product(d, h));
    DotIsReducedProduct(d, h);
  }

  // ---------------------------------------------------------------------
  // Laws of the field multiplication
  // ---------------------------------------------------------------------

  lemma MultComm(a: Block, b: Block)
    ensures Mult(a, b) == Mult(b, a)
  {
    DotIsMult(a, b);
    DotIsMult(b, a);
    var q1 := DotDiff(a, b);
    var q2 := DotDiff(b, a);
    MulComm(Val(a), Val(b));
    DiffSym(Shl(Val(Dot(b, a)), BlockBits), Mul(Val(b), Val(a)), q2, Modulus);
    DiffTrans(Shl(Val(Dot(a, b)), BlockBits), Mul(Val(a), Val(b)), Shl(Val(Dot(b, a)), BlockBits), q1, q2, Modulus);
    SameResidue(Dot(a, b), Dot(b, a), BlockBits, Xor(q1, q2));
  }

  lemma MultDistLeft(a: Block, b: Block, h: Block)
    ensures Mult(XorBlock(a, b), h) == XorBlock(Mult(a, h), Mult(b, h))
  {
    DotIsMult(XorBlock(a, b), h);
    DotIsMult(a, h);
    DotIsMult(b, h);
    var u := Dot(XorBlock(a, b), h);
    var v := XorBlock(Dot(a, h), Dot(b, h));
    var q := DotDiff(XorBlock(a, b), h);
    var qa := DotDiff(a, h);
    var qb := DotDiff(b, h);
    ValXor(a, b);
    MulDistLeft(Val(a), Val(b), Val(h));
    DiffXor(Shl(Val(Dot(a, h)), BlockBits), Mul(Val(a), Val(h)), Shl(Val(Dot(b, h)), BlockBits), Mul(Val(b), Val(h)), qa, qb, Modulus);
    ValXor(Dot(a, h), Dot(b, h));
    XorShl(Val(Dot(a, h)), Val(Dot(b, h)), BlockBits);
    var p := Mul(Val(XorBlock(a, b)), Val(h));
    DiffSym(Shl(Val(v), BlockBits), p, Xor(qa, qb), Modulus);
    DiffTrans(Shl(Val(u), BlockBits), p, Shl(Val(v), BlockBits), q, Xor(qa, qb), Modulus);
    SameResidue(u, v, BlockBits, Xor(q, Xor(qa, qb)));
  }

  lemma MultZero(h: Block)
    ensures Mult(Zero, h) == Zero
  {
    XorBlockZero(Zero);
    MultDistLeft(Zero, Zero, h);
    XorBlockSelf(Mult(Zero, h));
  }

  lemma MultAssoc(a: Block, b: Block, c: Block)
    ensures Mult(Mult(a, b), c) == Mult(a, Mult(b, c))
  {
    DotIsMult(a, b);
    DotIsMult(b, c);
    DotIsMult(Dot(a, b), c);
    DotIsMult(a, Dot(b, c));
    var va, vb, vc := Val(a), Val(b), Val(c);
    var x, y := Dot(a, b), Dot(b, c);
    var u, v := Dot(x, c), Dot(a, y);
    var qx := DotDiff(a, b);
    var qy := DotDiff(b, c);
    var qu := DotDiff(x, c);
    var qv := DotDiff(a, y);
    // x^256 u ~ x^128 x * c ~ (a * b) * c
    DiffShl(Shl(Val(u), BlockBits), Mul(Val(x), vc), BlockBits, qu, Modulus);
    MulShlLeft(Val(x), vc, BlockBits);
    DiffMul(Shl(Val(x), BlockBits), Mul(va, vb), vc, qx, Modulus);
    var u1, u2 := Shl(qu, BlockBits), Mul(qx, vc);
    DiffTrans(Shl(Shl(Val(u), BlockBits), BlockBits), Mul(Shl(Val(x), BlockBits), vc), Mul(Mul(va, vb), vc), u1, u2, Modulus);
    // x^256 v ~ a * x^128 y ~ a * (b * c)
    DiffShl(Shl(Val(v), BlockBits), Mul(va, Val(y)), BlockBits, qv, Modulus);
    MulShlRight(va, Val(y), BlockBits);
    MulComm(va, Shl(Val(y), BlockBits));
    MulComm(va, Mul(vb, vc));
    DiffMul(Shl(Val(y), BlockBits), Mul(vb, vc), va, qy, Modulus);
    var v1, v2 := Shl(qv, BlockBits), Mul(qy, va);
    DiffTrans(Shl(Shl(Val(v), BlockBits), BlockBits), Mul(va, Shl(Val(y), BlockBits)), Mul(va, Mul(vb, vc)), v1, v2, Modulus);
    // the two products agree
    MulAssoc(va, vb, vc);
    DiffSym(Shl(Shl(Val(v), BlockBits), BlockBits), Mul(va, Mul(vb, vc)), Xor(v1, v2), Modulus);
    DiffTrans(Shl(Shl(Val(u), BlockBits), BlockBits), Mul(va, Mul(vb, vc)), Shl(Shl(Val(v), BlockBits), BlockBits), Xor(u1, u2), Xor(v1, v2), Modulus);
    ShlAdd(Val(u), BlockBits, BlockBits);
    ShlAdd(Val(v), BlockBits, BlockBits);
    SameResidue(u, v, BlockBits + BlockBits, Xor(Xor(u1, u2), Xor(v1, v2)));
  }
}
