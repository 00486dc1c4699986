/**
 * Polynomials over GF(2), each one encoded as the natural number whose binary
 * digits are its coefficients: bit i of the number is the coefficient of x^i.
 * Addition of polynomials is bitwise exclusive or (Xor), multiplication is the
 * carry-less product (Mul), and multiplying by x^k is multiplying by Pow2(k).
 *
 * This module is the arithmetic the PCLMULQDQ instruction and the XOR/shift
 * instructions of the POLYVAL code perform; everything the rest of the model
 * proves about the field GF(2^128) rests on the ring laws proved here.
 */
module Gf2 {

  function Pow2(k: nat): (r: nat)
    ensures r >= 1
  {
    if k == 0 then 1 else 2 * Pow2(k - 1)
  }

  lemma {:induction false} Pow2Monotone(i: nat, j: nat)
    requires i <= j
    ensures Pow2(i) <= Pow2(j)
    decreases j
  {
    if i < j {
      Pow2Monotone(i, j - 1);
    }
  }

  lemma {:induction false} Pow2Add(a: nat, b: nat)
    ensures Pow2(a + b) == Pow2(a) * Pow2(b)
  {
    if b > 0 {
      Pow2Add(a, b - 1);
      assert Pow2(a) * Pow2(b) == 2 * (Pow2(a) * Pow2(b - 1));
    }
  }

  /** Squaring a known power of two. */
  lemma Pow2Square(k: nat, v: nat)
    requires Pow2(k) == v
    ensures Pow2(k + k) == v * v
  {
    Pow2Add(k, k);
  }

  /** The lowest digit and the rest of a number. */
  lemma Halves(x: nat, low: nat, high: nat)
    requires low < 2 && x == low + 2 * high
    ensures x / 2 == high && x % 2 == low
  {
  }

  /** Sum of two polynomials: bitwise exclusive or. */
  function Xor(a: nat, b: nat): nat
    decreases a + b
  {
    if a == 0 then b
    else if b == 0 then a
    else 2 * Xor(a / 2, b / 2) + (if a % 2 == b % 2 then 0 else 1)
  }

  /** The defining recurrence of Xor, for all arguments (the zero cases included). */
  lemma {:induction false} XorUnfold(a: nat, b: nat)
    ensures Xor(a, b) == 2 * Xor(a / 2, b / 2) + (if a % 2 == b % 2 then 0 else 1)
    ensures Xor(a, b) % 2 == (if a % 2 == b % 2 then 0 else 1)
    ensures Xor(a, b) / 2 == Xor(a / 2, b / 2)
  {
    if a == 0 {
      assert Xor(a / 2, b / 2) == b / 2;
    } else if b == 0 {
      assert Xor(a / 2, b / 2) == a / 2;
    }
  }

  lemma {:induction false} XorZero(a: nat)
    ensures Xor(a, 0) == a && Xor(0, a) == a
  {
  }

  lemma {:induction false} XorComm(a: nat, b: nat)
    ensures Xor(a, b) == Xor(b, a)
    decreases a + b
  {
    if a != 0 && b != 0 {
      XorComm(a / 2, b / 2);
    }
  }

  lemma {:induction false} XorSelf(a: nat)
    ensures Xor(a, a) == 0
  {
    if a != 0 {
      XorUnfold(a, a);
      XorSelf(a / 2);
    }
  }

  lemma {:induction false} XorAssoc(a: nat, b: nat, c: nat)
    ensures Xor(Xor(a, b), c) == Xor(a, Xor(b, c))
    decreases a + b + c
  {
    if a != 0 && b != 0 && c != 0 {
      XorUnfold(a, b);
      XorUnfold(b, c);
      XorUnfold(Xor(a, b), c);
      XorUnfold(a, Xor(b, c));
      XorAssoc(a / 2, b / 2, c / 2);
    }
  }

  /** Regrouping a sum of four terms. */
  lemma {:induction false} XorSwapMiddle(p: nat, q: nat, r: nat, s: nat)
    ensures Xor(Xor(p, q), Xor(r, s)) == Xor(Xor(p, r), Xor(q, s))
  {
    calc {
      Xor(Xor(p, q), Xor(r, s));
      { XorAssoc(p, q, Xor(r, s)); }
      Xor(p, Xor(q, Xor(r, s)));
      { XorAssoc(q, r, s); XorComm(q, r); XorAssoc(r, q, s); }
      Xor(p, Xor(r, Xor(q, s)));
      { XorAssoc(p, r, Xor(q, s)); }
      Xor(Xor(p, r), Xor(q, s));
    }
  }

  /** Adding the same term twice cancels it. */
  lemma {:induction false} XorCancel(a: nat, b: nat)
    ensures Xor(Xor(a, b), b) == a
  {
    XorAssoc(a, b, b);
    XorSelf(b);
  }

  /** The sum is zero only for equal terms. */
  lemma {:induction false} XorEqZero(a: nat, b: nat)
    requires Xor(a, b) == 0
    ensures a == b
    decreases a + b
  {
    if a != 0 && b != 0 {
      XorUnfold(a, b);
      XorEqZero(a / 2, b / 2);
    }
  }

  lemma {:induction false} XorDouble(a: nat, b: nat)
    ensures Xor(2 * a, 2 * b) == 2 * Xor(a, b)
  {
    Halves(2 * a, 0, a);
    Halves(2 * b, 0, b);
    XorUnfold(2 * a, 2 * b);
  }

  /** A bit added below a shifted value does not interact with it. */
  lemma {:induction false} XorBitDouble(bit: nat, q: nat)
    requires bit < 2
    ensures Xor(bit, 2 * q) == bit + 2 * q
  {
    XorUnfold(bit, 2 * q);
  }

  /** x * Pow2(k): the polynomial x multiplied by x^k, i.e. shifted left by k bits. */
  function Shl(x: nat, k: nat): nat
    decreases x + k
  {
    if k == 0 then x else 2 * Shl(x, k - 1)
  }

  lemma {:induction false} ShlZero(k: nat)
    ensures Shl(0, k) == 0
  {
    if k > 0 {
      ShlZero(k - 1);
    }
  }

  lemma {:induction false} ShlOne(k: nat)
    ensures Shl(1, k) == Pow2(k)
  {
    if k > 0 {
      ShlOne(k - 1);
    }
  }

  lemma {:induction false} ShlAdd(x: nat, j: nat, k: nat)
    ensures Shl(Shl(x, j), k) == Shl(x, j + k)
  {
    if k > 0 {
      ShlAdd(x, j, k - 1);
    }
  }

  /** Shifting is multiplication by a power of two. */
  lemma {:induction false} ShlIsMul(x: nat, k: nat)
    ensures Shl(x, k) == x * Pow2(k)
  {
    if k > 0 {
      ShlIsMul(x, k - 1);
      assert x * Pow2(k) == 2 * (x * Pow2(k - 1));
    }
  }

  lemma {:induction false} ShlBound(x: nat, m: nat, k: nat)
    requires x < Pow2(m)
    ensures Shl(x, k) < Pow2(m + k)
  {
    if k > 0 {
      ShlBound(x, m, k - 1);
    }
  }

  lemma {:induction false} ShlPlus(a: nat, b: nat, k: nat)
    ensures Shl(a + b, k) == Shl(a, k) + Shl(b, k)
  {
    if k > 0 {
      ShlPlus(a, b, k - 1);
    }
  }

  /** Placing x above k low bits y: the result has degree below k + m. */
  lemma {:induction false} JoinBound(y: nat, x: nat, k: nat, m: nat)
    requires y < Pow2(k) && x < Pow2(m)
    ensures y + Shl(x, k) < Pow2(k + m)
  {
    if k > 0 {
      JoinBound(y / 2, x, k - 1, m);
    }
  }

  /** The low k bits and the rest determine a number uniquely. */
  lemma {:induction false} JoinInjective(y1: nat, x1: nat, y2: nat, x2: nat, k: nat)
    requires y1 < Pow2(k) && y2 < Pow2(k)
    requires y1 + Shl(x1, k) == y2 + Shl(x2, k)
    ensures y1 == y2 && x1 == x2
  {
    if k > 0 {
      JoinInjective(y1 / 2, x1, y2 / 2, x2, k - 1);
    }
  }

  /**
   * Xor works digit-wise: splitting both operands at bit k splits the sum at
   * bit k. This is what lets 64-bit words, 128-bit blocks and byte strings
   * stand for the same polynomial.
   */
  lemma {:induction false} XorSplit(k: nat, a1: nat, a2: nat, b1: nat, b2: nat)
    requires a1 < Pow2(k) && b1 < Pow2(k)
    ensures Xor(a1 + Shl(a2, k), b1 + Shl(b2, k)) == Xor(a1, b1) + Shl(Xor(a2, b2), k)
  {
    if k > 0 {
      var A := a1 + Shl(a2, k);
      var B := b1 + Shl(b2, k);
      Halves(A, a1 % 2, a1 / 2 + Shl(a2, k - 1));
      Halves(B, b1 % 2, b1 / 2 + Shl(b2, k - 1));
      XorUnfold(A, B);
      XorSplit(k - 1, a1 / 2, a2, b1 / 2, b2);
      XorUnfold(a1, b1);
    }
  }

  /** Shifting distributes over the sum. */
  lemma XorShl(a: nat, b: nat, k: nat)
    ensures Xor(Shl(a, k), Shl(b, k)) == Shl(Xor(a, b), k)
  {
    XorSplit(k, 0, a, 0, b);
  }

  /** The sum of two polynomials of degree below k has degree below k. */
  lemma {:induction false} XorBound(k: nat, a: nat, b: nat)
    requires a < Pow2(k) && b < Pow2(k)
    ensures Xor(a, b) < Pow2(k)
  {
    if k > 0 {
      XorUnfold(a, b);
      XorBound(k - 1, a / 2, b / 2);
    }
  }

  /** Adding a polynomial of degree below k keeps a term of degree at least k. */
  lemma {:induction false} XorHighStays(k: nat, a: nat, b: nat)
    requires a < Pow2(k) <= b
    ensures Xor(a, b) >= Pow2(k)
  {
    if k > 0 {
      XorUnfold(a, b);
      XorHighStays(k - 1, a / 2, b / 2);
    }
  }

  /** When the low part has degree below k, placing parts side by side is their sum. */
  lemma JoinIsXor(a: nat, b: nat, k: nat)
    requires a < Pow2(k)
    ensures a + Shl(b, k) == Xor(a, Shl(b, k))
  {
    XorSplit(k, a, 0, 0, b);
    ShlZero(k);
    XorZero(a);
    XorZero(b);
  }

  /** (hi + x^k lo + m) x^k, spelled out term by term (the shape of one reduction round). */
  lemma ShiftedSwap(lo: nat, hi: nat, m: nat, k: nat)
    requires hi < Pow2(k)
    ensures Shl(Xor(hi + Shl(lo, k), m), k) == Xor(Xor(Shl(hi, k), Shl(lo, k + k)), Shl(m, k))
  {
    XorShl(hi + Shl(lo, k), m, k);
    ShlJoin(hi, lo, k);
  }

  /** Shifting a two-digit number moves both digits. */
  lemma ShlJoin(hi: nat, lo: nat, k: nat)
    requires hi < Pow2(k)
    ensures Shl(hi + Shl(lo, k), k) == Xor(Shl(hi, k), Shl(lo, k + k))
  {
    ShlPlus(hi, Shl(lo, k), k);
    ShlAdd(lo, k, k);
    ShlBound(hi, k, k);
    JoinIsXor(Shl(hi, k), lo, k + k);
  }


  /** Coefficient of x^i. */
  predicate Bit(x: nat, i: nat)
  {
    if i == 0 then x % 2 == 1 else Bit(x / 2, i - 1)
  }

  lemma {:induction false} BitXor(a: nat, b: nat, i: nat)
    ensures Bit(Xor(a, b), i) == (Bit(a, i) != Bit(b, i))
  {
    XorUnfold(a, b);
    if i > 0 {
      BitXor(a / 2, b / 2, i - 1);
    }
  }

  /** Two polynomials with the same coefficients are equal. */
  lemma {:induction false} BitsEqual(x: nat, y: nat)
    requires forall i: nat :: Bit(x, i) == Bit(y, i)
    ensures x == y
    decreases x + y
  {
    assert Bit(x, 0) == Bit(y, 0);
    if x != 0 || y != 0 {
      forall i: nat
        ensures Bit(x / 2, i) == Bit(y / 2, i)
      {
        assert Bit(x, i + 1) == Bit(y, i + 1);
      }
      BitsEqual(x / 2, y / 2);
    }
  }

  /** Product of two polynomials: carry-less multiplication, by shift and add. */
  function Mul(a: nat, b: nat): nat
    decreases a
  {
    if a == 0 then 0 else Xor(if a % 2 == 1 then b else 0, 2 * Mul(a / 2, b))
  }

  lemma {:induction false} MulUnfold(a: nat, b: nat)
    ensures Mul(a, b) == Xor(if a % 2 == 1 then b else 0, 2 * Mul(a / 2, b))
  {
  }

  lemma {:induction false} MulZeroRight(a: nat)
    ensures Mul(a, 0) == 0
  {
    if a != 0 {
      MulZeroRight(a / 2);
    }
  }

  lemma {:induction false} MulOneRight(a: nat)
    ensures Mul(a, 1) == a
  {
    if a != 0 {
      MulOneRight(a / 2);
      XorBitDouble(a % 2, a / 2);
    }
  }

  lemma {:induction false} MulDoubleLeft(a: nat, b: nat)
    ensures Mul(2 * a, b) == 2 * Mul(a, b)
  {
    MulUnfold(2 * a, b);
  }

  /** Multiplication distributes over addition, on the left. */
  lemma {:induction false} MulDistLeft(a: nat, b: nat, c: nat)
    ensures Mul(Xor(a, b), c) == Xor(Mul(a, c), Mul(b, c))
    decreases a + b
  {
    if a == 0 || b == 0 {
    } else {
      var x := Xor(a, b);
      XorUnfold(a, b);
      var sa := if a % 2 == 1 then c else 0;
      var sb := if b % 2 == 1 then c else 0;
      var sx := if x % 2 == 1 then c else 0;
      assert sx == Xor(sa, sb) by {
        XorSelf(c);
      }
      MulDistLeft(a / 2, b / 2, c);
      XorDouble(Mul(a / 2, c), Mul(b / 2, c));
      calc {
        Mul(x, c);
        Xor(sx, 2 * Mul(x / 2, c));
        Xor(Xor(sa, sb), Xor(2 * Mul(a / 2, c), 2 * Mul(b / 2, c)));
        { XorSwapMiddle(sa, sb, 2 * Mul(a / 2, c), 2 * Mul(b / 2, c)); }
        Xor(Xor(sa, 2 * Mul(a / 2, c)), Xor(sb, 2 * Mul(b / 2, c)));
      }
    }
  }

  lemma {:induction false} MulDoubleRight(a: nat, b: nat)
    ensures Mul(a, 2 * b) == 2 * Mul(a, b)
  {
    if a != 0 {
      MulDoubleRight(a / 2, b);
      XorDouble(if a % 2 == 1 then b else 0, 2 * Mul(a / 2, b));
    }
  }

  /** Multiplication distributes over addition, on the right. */
  lemma {:induction false} MulDistRight(a: nat, b: nat, c: nat)
    ensures Mul(a, Xor(b, c)) == Xor(Mul(a, b), Mul(a, c))
  {
    if a != 0 {
      MulDistRight(a / 2, b, c);
      var sb := if a % 2 == 1 then b else 0;
      var sc := if a % 2 == 1 then c else 0;
      assert (if a % 2 == 1 then Xor(b, c) else 0) == Xor(sb, sc);
      XorDouble(Mul(a / 2, b), Mul(a / 2, c));
      XorSwapMiddle(sb, sc, 2 * Mul(a / 2, b), 2 * Mul(a / 2, c));
    }
  }

  lemma {:induction false} MulComm(a: nat, b: nat)
    ensures Mul(a, b) == Mul(b, a)
  {
    if a == 0 {
      MulZeroRight(b);
    } else {
      MulComm(a / 2, b);
      MulDoubleRight(b, a / 2);
      XorBitDouble(a % 2, a / 2);
      MulDistRight(b, a % 2, 2 * (a / 2));
      if a % 2 == 1 {
        MulOneRight(b);
      } else {
        MulZeroRight(b);
      }
    }
  }

  lemma {:induction false} MulAssoc(a: nat, b: nat, c: nat)
    ensures Mul(Mul(a, b), c) == Mul(a, Mul(b, c))
  {
    if a != 0 {
      var s := if a % 2 == 1 then b else 0;
      MulDistLeft(s, 2 * Mul(a / 2, b), c);
      MulDoubleLeft(Mul(a / 2, b), c);
      MulAssoc(a / 2, b, c);
    }
  }

  /** Multiplying by x^k shifts left by k bits. */
  lemma {:induction false} MulShlLeft(a: nat, b: nat, k: nat)
    ensures Mul(Shl(a, k), b) == Shl(Mul(a, b), k)
  {
    if k > 0 {
      MulShlLeft(a, b, k - 1);
      MulDoubleLeft(Shl(a, k - 1), b);
    }
  }

  lemma {:induction false} MulShlRight(a: nat, b: nat, k: nat)
    ensures Mul(a, Shl(b, k)) == Shl(Mul(a, b), k)
  {
    if k > 0 {
      MulShlRight(a, b, k - 1);
      MulDoubleRight(a, Shl(b, k - 1));
    }
  }

  /** The product of two two-digit polynomials, digit by digit (digits of k bits). */
  lemma MulDigits(al: nat, ah: nat, bl: nat, bh: nat, k: nat)
    ensures Mul(Xor(al, Shl(ah, k)), Xor(bl, Shl(bh, k)))
         == Xor(Xor(Mul(al, bl), Shl(Mul(al, bh), k)), Xor(Shl(Mul(ah, bl), k), Shl(Mul(ah, bh), k + k)))
  {
    var sa, sb := Shl(ah, k), Shl(bh, k);
    MulDistLeft(al, sa, Xor(bl, sb));
    MulDistRight(al, bl, sb);
    MulDistRight(sa, bl, sb);
    MulShlRight(al, bh, k);
    MulShlLeft(ah, bl, k);
    MulShlLeft(ah, sb, k);
    MulShlRight(ah, bh, k);
    ShlAdd(Mul(ah, bh), k, k);
  }

  /** Degrees add: a product of polynomials of degrees below m and n has degree below m + n. */
  lemma {:induction false} MulBound(a: nat, b: nat, m: nat, n: nat)
    requires a < Pow2(m) && b < Pow2(n)
    ensures Mul(a, b) < Pow2(m + n)
    decreases a
  {
    if a != 0 {
      assert m > 0;
      MulBound(a / 2, b, m - 1, n);
      Pow2Monotone(n, m + n);
      XorBound(m + n, if a % 2 == 1 then b else 0, 2 * Mul(a / 2, b));
    }
  }

  /** A nonzero multiple of a polynomial of degree n has degree at least n. */
  lemma {:induction false} MulDegree(q: nat, p: nat, n: nat)
    requires q >= 1 && Pow2(n) <= p < Pow2(n + 1)
    ensures Mul(q, p) >= Pow2(n)
  {
    if q == 1 {
      MulUnfold(q, p);
      XorZero(p);
    } else {
      MulDegree(q / 2, p, n);
      XorHighStays(n + 1, if q % 2 == 1 then p else 0, 2 * Mul(q / 2, p));
    }
  }

  /** q divided by x^k, dropping the remainder. */
  function ShiftQuot(q: nat, k: nat): nat
  {
    if k == 0 then q else ShiftQuot(q / 2, k - 1)
  }

  /**
   * Cancelling x^k against an odd modulus: when d * x^k is a multiple of an
   * odd p, d is itself a multiple of p.
   */
  lemma {:induction false} CancelShift(d: nat, q: nat, p: nat, k: nat)
    requires p % 2 == 1
    requires Shl(d, k) == Mul(q, p)
    ensures d == Mul(ShiftQuot(q, k), p)
  {
    if k > 0 {
      MulUnfold(q, p);
      XorUnfold(if q % 2 == 1 then p else 0, 2 * Mul(q / 2, p));
      assert q % 2 == 0;
      XorZero(2 * Mul(q / 2, p));
      CancelShift(d, q / 2, p, k - 1);
    }
  }

  /** x and y are congruent modulo m: their difference is a multiple of m. */
  ghost predicate Congruent(x: nat, y: nat, m: nat)
  {
    exists q: nat :: Xor(x, y) == Mul(q, m)
  }

  /** x and y differ by exactly q times m (a congruence with its quotient named). */
  predicate DifferBy(x: nat, y: nat, q: nat, m: nat)
  {
    Xor(x, y) == Mul(q, m)
  }

  lemma CongruentByQuotient(x: nat, y: nat, q: nat, m: nat)
    requires DifferBy(x, y, q, m)
    ensures Congruent(x, y, m)
  {
  }

  lemma DiffRefl(x: nat, m: nat)
    ensures DifferBy(x, x, 0, m)
  {
    XorSelf(x);
  }

  lemma DiffSym(x: nat, y: nat, q: nat, m: nat)
    requires DifferBy(x, y, q, m)
    ensures DifferBy(y, x, q, m)
  {
    XorComm(x, y);
  }

  lemma DiffTrans(x: nat, y: nat, z: nat, q1: nat, q2: nat, m: nat)
    requires DifferBy(x, y, q1, m) && DifferBy(y, z, q2, m)
    ensures DifferBy(x, z, Xor(q1, q2), m)
  {
    calc {
      Xor(x, z);
      { XorZero(x); XorSelf(y); }
      Xor(Xor(x, Xor(y, y)), z);
      { XorAssoc(x, y, y); }
      Xor(Xor(Xor(x, y), y), z);
      { XorAssoc(Xor(x, y), y, z); }
      Xor(Xor(x, y), Xor(y, z));
      { MulDistLeft(q1, q2, m); }
      Mul(Xor(q1, q2), m);
    }
  }

  lemma DiffXor(x: nat, y: nat, u: nat, v: nat, q1: nat, q2: nat, m: nat)
    requires DifferBy(x, y, q1, m) && DifferBy(u, v, q2, m)
    ensures DifferBy(Xor(x, u), Xor(y, v), Xor(q1, q2), m)
  {
    XorSwapMiddle(x, u, y, v);
    MulDistLeft(q1, q2, m);
  }
  /** Adding the same polynomial to both sides keeps the difference. */
  lemma DiffAddBoth(h: nat, x: nat, y: nat, q: nat, m: nat)
    requires DifferBy(x, y, q, m)
    ensures DifferBy(Xor(h, x), Xor(h, y), q, m)
  {
    DiffRefl(h, m);
    DiffXor(h, h, x, y, 0, q, m);
    XorZero(q);
  }


  lemma DiffMul(x: nat, y: nat, z: nat, q: nat, m: nat)
    requires DifferBy(x, y, q, m)
    ensures DifferBy(Mul(x, z), Mul(y, z), Mul(q, z), m)
  {
    calc {
      Xor(Mul(x, z), Mul(y, z));
      { MulDistLeft(x, y, z); }
      Mul(Mul(q, m), z);
      { MulAssoc(q, m, z); MulComm(m, z); MulAssoc(q, z, m); }
      Mul(Mul(q, z), m);
    }
  }

  lemma DiffShl(x: nat, y: nat, k: nat, q: nat, m: nat)
    requires DifferBy(x, y, q, m)
    ensures DifferBy(Shl(x, k), Shl(y, k), Shl(q, k), m)
  {
    XorShl(x, y, k);
    MulShlLeft(q, m, k);
  }

  /** A rearrangement of a sum, as one reduction round needs it. */
  lemma XorShuffle(a: nat, b: nat, c: nat, d: nat)
    ensures Xor(Xor(Xor(a, b), c), Xor(d, a)) == Xor(Xor(d, c), b)
  {
    var lhs := Xor(Xor(Xor(a, b), c), Xor(d, a));
    var rhs := Xor(Xor(d, c), b);
    forall i: nat
      ensures Bit(lhs, i) == Bit(rhs, i)
    {
      BitXor(Xor(Xor(a, b), c), Xor(d, a), i);
      BitXor(Xor(a, b), c, i);
      BitXor(a, b, i);
      BitXor(d, a, i);
      BitXor(Xor(d, c), b, i);
      BitXor(d, c, i);
    }
    BitsEqual(lhs, rhs);
  }

  /** Moving the parentheses of a four-term sum. */
  lemma XorRegroup(a: nat, b: nat, c: nat, d: nat)
    ensures Xor(Xor(a, b), Xor(c, d)) == Xor(Xor(a, Xor(b, c)), d)
  {
    var lhs := Xor(Xor(a, b), Xor(c, d));
    var rhs := Xor(Xor(a, Xor(b, c)), d);
    forall i: nat
      ensures Bit(lhs, i) == Bit(rhs, i)
    {
      BitXor(Xor(a, b), Xor(c, d), i);
      BitXor(a, b, i);
      BitXor(c, d, i);
      BitXor(Xor(a, Xor(b, c)), d, i);
      BitXor(a, Xor(b, c), i);
      BitXor(b, c, i);
    }
    BitsEqual(lhs, rhs);
  }

  /**
   * For an odd modulus m of degree n, two residues of degree below n that are
   * congruent after multiplication by x^k are equal.
   */
  lemma {:induction false} ShiftedResiduesEqual(d1: nat, d2: nat, k: nat, q: nat, m: nat, n: nat)
    requires m % 2 == 1 && Pow2(n) <= m < Pow2(n + 1)
    requires d1 < Pow2(n) && d2 < Pow2(n)
    requires DifferBy(Shl(d1, k), Shl(d2, k), q, m)
    ensures d1 == d2
  {
    var d := Xor(d1, d2);
    XorShl(d1, d2, k);
    XorBound(n, d1, d2);
    CancelShift(d, q, m, k);
    var q' := ShiftQuot(q, k);
    if q' >= 1 {
      MulDegree(q', m, n);
      assert false;
    }
    assert d == 0;
    XorEqZero(d1, d2);
  }
}
