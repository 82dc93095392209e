/** 128-bit blocks as the CUDA code stores them, and the field multiplication on them. */
module Blocks {
  import opened Words
  import P = Polynomials
  import L = Linear
  import R = Reduction

  // hi holds coefficients x^0 (its top bit) to x^63, lo holds x^64 to x^127
  datatype Block128 = Block128(hi: uint64, lo: uint64)

  const ZERO := Block128(0, 0)
  const ONE := Block128(TWO63, 0)

  // x^0 + x^1 + x^2 + x^7 in the top byte of hi
  const REDUCTION: uint64 := 0xe100_0000_0000_0000

  // bxor
  function Add(a: Block128, b: Block128): Block128 { Block128(Xor64(a.hi, b.hi), Xor64(a.lo, b.lo)) }

  // One shift-and-reduce step
  function TimesX(v: Block128): Block128 {
    Block128(Xor64(v.hi / 2, if v.lo % 2 == 1 then REDUCTION else 0), v.lo / 2 + v.hi % 2 * TWO63)
  }

  // Coefficient of x^i
  predicate BlockBit(b: Block128, i: nat)
    requires i < 128
  {
    if i < 64 then Bit(b.hi, 63 - i) else Bit(b.lo, 127 - i)
  }

  function ToPoly(b: Block128): P.Poly { P.Poly(set i: nat | i < 128 && BlockBit(b, i)) }

  function Iterate(v: Block128, n: nat): Block128 { if n == 0 then v else TimesX(Iterate(v, n - 1)) }

  // z of gf_mul after n iterations
  function Combine(x: Block128, y: Block128, n: nat): Block128
    requires n <= 128
  {
    if n == 0 then ZERO else
    var z := Combine(x, y, n - 1);
    if BlockBit(x, n - 1) then Add(z, Iterate(y, n - 1)) else z
  }

  function Mul(x: Block128, y: Block128): Block128 { Combine(x, y, 128) }

  // ---- Blocks are the polynomials of degree below 128 ----

  lemma AddBit(a: Block128, b: Block128, i: nat)
    requires i < 128
    ensures BlockBit(Add(a, b), i) == (BlockBit(a, i) != BlockBit(b, i))
  {
    if i < 64 { XorBit(a.hi, b.hi, 63 - i); } else { XorBit(a.lo, b.lo, 127 - i); }
  }

  lemma ReductionBit(k: nat)
    requires k < 64
    ensures Bit(REDUCTION, k) <==> k in {63, 62, 61, 56}
  {
    Widths();
    assert REDUCTION == 0xe1 * Pow2(56);
    ConcatBit(0xe1, 0, 56, k);
    ZeroBit(k);
    if k >= 56 { TopByteBits(k - 56); }
  }

  lemma TopByteBits(j: nat)
    requires j < 8
    ensures Bit(0xe1, j) <==> j in {7, 6, 5, 0}
  {
    assert Bit(0xe1, 0) && !Bit(0xe1, 1) && !Bit(0xe1, 2) && !Bit(0xe1, 3);
    assert !Bit(0xe1, 4) && Bit(0xe1, 5) && Bit(0xe1, 6) && Bit(0xe1, 7);
  }

  lemma LowLimbBit(lo: uint64, top: nat, k: nat)
    requires k < 64 && top < 2
    ensures Bit(lo / 2 + top * TWO63, k) == if k == 63 then top == 1 else Bit(lo, k + 1)
  {
    Widths();
    ConcatBit(top, lo / 2, 63, k);
  }

  lemma TimesXBit(v: Block128, i: nat)
    requires i < 128
    ensures BlockBit(TimesX(v), i) == ((i > 0 && BlockBit(v, i - 1)) != (BlockBit(v, 127) && i in {0, 1, 2, 7}))
  {
    var r: uint64 := if v.lo % 2 == 1 then REDUCTION else 0;
    if i < 64 {
      XorBit(v.hi / 2, r, 63 - i);
      ReductionBit(63 - i);
      ZeroBit(63 - i);
      if i == 0 { Widths(); HighBit(v.hi, 64); }
      assert Bit(v.hi / 2, 63 - i) == Bit(v.hi, 64 - i);
    } else {
      LowLimbBit(v.lo, v.hi % 2, 127 - i);
    }
  }

  lemma ToPolyAdd(a: Block128, b: Block128)
    ensures ToPoly(Add(a, b)) == P.Add(ToPoly(a), ToPoly(b))
  {
    forall i: nat | i < 128 ensures BlockBit(Add(a, b), i) == (BlockBit(a, i) != BlockBit(b, i)) { AddBit(a, b, i); }
    assert ToPoly(Add(a, b)).terms == P.Add(ToPoly(a), ToPoly(b)).terms;
  }

  lemma ToPolyTimesX(v: Block128)
    ensures ToPoly(TimesX(v)) == R.TimesX(ToPoly(v))
  {
    var p, q := ToPoly(TimesX(v)), R.TimesX(ToPoly(v));
    forall i: nat ensures i in p.terms <==> i in q.terms {
      if i < 128 { TimesXBit(v, i); }
    }
    P.Extensional(p, q);
  }

  lemma {:induction false} ToPolyIterate(f: L.Map, v: Block128, n: nat)
    requires forall b: Block128 :: ToPoly(TimesX(b)) == f(ToPoly(b))
    ensures ToPoly(Iterate(v, n)) == L.Iterate(f, ToPoly(v), n)
  {
    if n > 0 { ToPolyIterate(f, v, n - 1); }
  }

  lemma ToPolyZero()
    ensures ToPoly(ZERO) == P.ZERO
  {
    forall i: nat | i < 128 ensures !BlockBit(ZERO, i) { if i < 64 { ZeroBit(63 - i); } else { ZeroBit(127 - i); } }
    assert ToPoly(ZERO).terms == {};
  }

  lemma ToPolyOne()
    ensures ToPoly(ONE) == P.ONE
  {
    Widths();
    forall i: nat | i < 128 ensures BlockBit(ONE, i) == (i == 0) {
      if i < 64 { ConcatBit(1, 0, 63, 63 - i); ZeroBit(63 - i); } else { ZeroBit(127 - i); }
    }
    assert ToPoly(ONE).terms == {0};
  }

  lemma {:induction false} ToPolyCombine(f: L.Map, x: Block128, y: Block128, n: nat)
    requires n <= 128
    requires forall b: Block128 :: ToPoly(TimesX(b)) == f(ToPoly(b))
    ensures ToPoly(Combine(x, y, n)) == L.Combine(f, ToPoly(x), ToPoly(y), n)
  {
    if n == 0 {
      ToPolyZero();
    } else {
      ToPolyCombine(f, x, y, n - 1);
      ToPolyIterate(f, y, n - 1);
      ToPolyAdd(Combine(x, y, n - 1), Iterate(y, n - 1));
    }
  }

  lemma ToPolyInjective(a: Block128, b: Block128)
    requires ToPoly(a) == ToPoly(b)
    ensures a == b
  {
    Widths();
    forall k: nat | k < 64 ensures Bit(a.hi, k) == Bit(b.hi, k) && Bit(a.lo, k) == Bit(b.lo, k) {
      assert 63 - k in ToPoly(a).terms <==> 63 - k in ToPoly(b).terms;
      assert 127 - k in ToPoly(a).terms <==> 127 - k in ToPoly(b).terms;
    }
    SameBits(a.hi, b.hi, 64);
    SameBits(a.lo, b.lo, 64);
  }

  lemma MulIsPolynomialProduct(x: Block128, y: Block128)
    ensures ToPoly(Mul(x, y)) == P.Remainder(P.Product(ToPoly(x), ToPoly(y)), 254)
  {
    ToPolyMul(x, y);
    R.MulIsRemainder(ToPoly(x), ToPoly(y));
  }

  // The product of blocks is the product of polynomials less a multiple of the modulus
  lemma MulDivides(x: Block128, y: Block128)
    ensures exists q: P.Poly ::
      P.Product(ToPoly(x), ToPoly(y)) == P.Add(P.Product(q, P.MODULUS), ToPoly(Mul(x, y)))
    ensures P.Reduced(ToPoly(Mul(x, y)))
  {
    hide Mul, P.Product, ToPoly;
    var product := P.Product(ToPoly(x), ToPoly(y));
    MulIsPolynomialProduct(x, y);
    ToPolyMul(x, y);
    R.ProductDegree(ToPoly(x), ToPoly(y));
    R.Division(product, 254);
    assert product == P.Add(P.Product(R.Quotient(product, 254), P.MODULUS), ToPoly(Mul(x, y)));
  }

  // ---- The commutative ring of blocks ----

  lemma AddLaws(a: Block128, b: Block128, c: Block128)
    ensures Add(a, b) == Add(b, a)
    ensures Add(Add(a, b), c) == Add(a, Add(b, c))
    ensures Add(a, ZERO) == a
    ensures Add(a, a) == ZERO
  {
    var p, q, r := ToPoly(a), ToPoly(b), ToPoly(c);
    ToPolyAdd(a, b); ToPolyAdd(b, a); ToPolyAdd(b, c); ToPolyAdd(a, a); ToPolyAdd(a, ZERO); ToPolyZero();
    ToPolyAdd(Add(a, b), c); ToPolyAdd(a, Add(b, c));
    assert P.Add(p, q) == P.Add(q, p) by { assert P.Add(p, q).terms == P.Add(q, p).terms; }
    assert P.Add(P.Add(p, q), r) == P.Add(p, P.Add(q, r)) by {
      assert P.Add(P.Add(p, q), r).terms == P.Add(p, P.Add(q, r)).terms;
    }
    assert P.Add(p, P.ZERO) == p by { P.AddZero(p); }
    assert P.Add(p, p) == P.ZERO;
    ToPolyInjective(Add(a, b), Add(b, a));
    ToPolyInjective(Add(Add(a, b), c), Add(a, Add(b, c)));
    ToPolyInjective(Add(a, ZERO), a);
    ToPolyInjective(Add(a, a), ZERO);
  }

  lemma ToPolyMul(x: Block128, y: Block128)
    ensures ToPoly(Mul(x, y)) == L.Mul(R.TimesX, ToPoly(x), ToPoly(y))
    ensures P.Reduced(ToPoly(x)) && P.Reduced(ToPoly(y)) && P.Reduced(ToPoly(Mul(x, y)))
  {
    forall b: Block128 ensures ToPoly(TimesX(b)) == R.TimesX(ToPoly(b)) { ToPolyTimesX(b); }
    ToPolyCombine(R.TimesX, x, y, 128);
  }

  lemma MulOne(a: Block128)
    ensures Mul(a, ONE) == a == Mul(ONE, a)
  {
    R.TimesXShifting();
    ToPolyMul(a, ONE);
    ToPolyOne();
    L.MulOne(R.TimesX, ToPoly(a));
    ToPolyInjective(Mul(a, ONE), a);
    MulCommutes(a, ONE);
  }

  lemma MulCommutes(a: Block128, b: Block128)
    ensures Mul(a, b) == Mul(b, a)
  {
    R.TimesXShifting();
    ToPolyMul(a, b);
    ToPolyMul(b, a);
    L.MulCommutes(R.TimesX, ToPoly(a), ToPoly(b));
    ToPolyInjective(Mul(a, b), Mul(b, a));
  }

  lemma MulAssociates(a: Block128, b: Block128, c: Block128)
    ensures Mul(Mul(a, b), c) == Mul(a, Mul(b, c))
  {
    R.TimesXShifting();
    ToPolyMul(a, b);
    ToPolyMul(b, c);
    ToPolyMul(Mul(a, b), c);
    ToPolyMul(a, Mul(b, c));
    L.MulAssociates(R.TimesX, ToPoly(a), ToPoly(b), ToPoly(c));
    ToPolyInjective(Mul(Mul(a, b), c), Mul(a, Mul(b, c)));
  }

  lemma MulDistributes(a: Block128, b: Block128, c: Block128)
    ensures Mul(Add(a, b), c) == Add(Mul(a, c), Mul(b, c))
    ensures Mul(c, Add(a, b)) == Add(Mul(c, a), Mul(c, b))
  {
    ToPolyMul(Add(a, b), c);
    ToPolyMul(a, c);
    ToPolyMul(b, c);
    ToPolyAdd(a, b);
    ToPolyAdd(Mul(a, c), Mul(b, c));
    L.CombineAddLeft(R.TimesX, ToPoly(a), ToPoly(b), ToPoly(c), 128);
    ToPolyInjective(Mul(Add(a, b), c), Add(Mul(a, c), Mul(b, c)));
    MulCommutes(Add(a, b), c);
    MulCommutes(a, c);
    MulCommutes(b, c);
  }

  // ---- gf_mul ----

  method GfMul(x: Block128, y: Block128) returns (z: Block128)
    ensures z == Mul(x, y)
  {
    z := ZERO;
    var v := y;
    for i := 0 to 128
      invariant z == Combine(x, y, i) && v == Iterate(y, i)
    {
      var bit;
      if i < 64 {
        bit := And64(ShiftRight(x.hi, 63 - i), 1);
        ShiftRightBit(x.hi, 63 - i);
      } else {
        bit := And64(ShiftRight(x.lo, 127 - i), 1);
        ShiftRightBit(x.lo, 127 - i);
      }
      SelectAdd(z, v, bit);
      var xmask := Negate(bit);
      z := Block128(Xor64(z.hi, And64(v.hi, xmask)), Xor64(z.lo, And64(v.lo, xmask)));

      ShiftReduce(v);
      var lsb := And64(v.lo, 1);
      var newLo := Or64(ShiftRight(v.lo, 1), ShiftLeft(v.hi, 63));
      var newHi := ShiftRight(v.hi, 1);
      var rmask := Negate(lsb);
      newHi := Xor64(newHi, And64(REDUCTION, rmask));
      v := Block128(newHi, newLo);
    }
  }

  lemma SelectAdd(z: Block128, v: Block128, bit: nat)
    requires bit < 2
    ensures Block128(Xor64(z.hi, And64(v.hi, Negate(bit))), Xor64(z.lo, And64(v.lo, Negate(bit))))
         == if bit == 1 then Add(z, v) else z
  {
    Select(v.hi, bit);
    Select(v.lo, bit);
    AddLaws(z, ZERO, ZERO);
  }

  lemma ShiftReduce(v: Block128)
    ensures Block128(Xor64(ShiftRight(v.hi, 1), And64(REDUCTION, Negate(And64(v.lo, 1)))),
                     Or64(ShiftRight(v.lo, 1), ShiftLeft(v.hi, 63))) == TimesX(v)
  {
    ShiftInto(v.lo, v.hi);
    LowBit(v.lo);
    Select(REDUCTION, v.lo % 2);
    assert ShiftRight(v.hi, 1) == v.hi / 2;
  }
}
