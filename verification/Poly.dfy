/** Polynomials over GF(2), each given by the set of its exponents. */
module Polynomials {
  datatype Poly = Poly(terms: set<nat>)

  const ZERO := Poly({})
  const ONE := Poly({0})

  // x^128 + x^7 + x^2 + x + 1
  const MODULUS := Poly({0, 1, 2, 7, 128})

  function Add(a: Poly, b: Poly): Poly { Poly((a.terms - b.terms) + (b.terms - a.terms)) }

  function Plus(i: nat, k: nat): nat { i + k }

  // a times x^k
  function Shift(a: Poly, k: nat): (s: Poly)
    ensures forall j: nat {:trigger j in s.terms} :: j in s.terms <==> j >= k && j - k in a.terms
  {
    var s := set i | i in a.terms :: Plus(i, k);
    assert forall j: nat {:trigger j in s} :: j >= k && j - k in a.terms ==> Plus(j - k, k) in s;
    Poly(s)
  }

  ghost predicate Reduced(a: Poly) { forall i <- a.terms :: i < 128 }

  // The pairs of terms of a and b whose product is x^k
  function Pairs(a: Poly, b: Poly, k: nat): set<nat> { set i | i in a.terms && i <= k && k - i in b.terms }

  // The coefficient of x^k in a * b
  predicate Coefficient(a: Poly, b: Poly, k: nat) { |Pairs(a, b, k)| % 2 == 1 }

  function Product(a: Poly, b: Poly): (p: Poly)
  {
    Poly(set i, j | i in a.terms && j in b.terms && Coefficient(a, b, Plus(i, j)) :: Plus(i, j))
  }

  lemma InProduct(a: Poly, b: Poly, k: nat)
    ensures k in Product(a, b).terms <==> Coefficient(a, b, k)
  {}

  // One step of long division by the modulus: cancel the term x^d, d >= 128
  function Cancel(a: Poly, d: nat): Poly
    requires d >= 128
  {
    if d in a.terms then Add(a, Shift(MODULUS, d - 128)) else a
  }

  // Remainder of a, whose degree is at most d
  function Remainder(a: Poly, d: nat): Poly
    decreases d
  {
    if d < 128 then a else Remainder(Cancel(a, d), d - 1)
  }

  lemma PairsStep(a: Poly, b: Poly, n: nat, k: nat)
    requires n !in a.terms
    ensures Pairs(Poly(a.terms + {n}), b, k) == Pairs(a, b, k) + if k in Shift(b, n).terms then {n} else {}
  {}

  lemma CoefficientStep(a: Poly, b: Poly, n: nat, k: nat)
    requires n !in a.terms
    ensures Coefficient(Poly(a.terms + {n}), b, k) == (Coefficient(a, b, k) != (k in Shift(b, n).terms))
  {
    PairsStep(a, b, n, k);
    var before, after := Pairs(a, b, k), Pairs(Poly(a.terms + {n}), b, k);
    assert n !in before;
    if k in Shift(b, n).terms {
      assert |after| == |before| + 1;
    } else {
      assert after == before;
    }
  }

  lemma Extensional(p: Poly, q: Poly)
    requires forall k: nat :: k in p.terms <==> k in q.terms
    ensures p == q
  {}

  lemma ProductStep(a: Poly, b: Poly, n: nat)
    requires n !in a.terms
    ensures Product(Poly(a.terms + {n}), b) == Add(Product(a, b), Shift(b, n))
  {
    var p, q := Product(Poly(a.terms + {n}), b), Add(Product(a, b), Shift(b, n));
    forall k: nat ensures k in p.terms <==> k in q.terms {
      CoefficientStep(a, b, n, k);
      InProduct(a, b, k);
      InProduct(Poly(a.terms + {n}), b, k);
    }
    Extensional(p, q);
  }

  lemma Swap(a: Poly, b: Poly, c: Poly, d: Poly)
    ensures Add(Add(a, b), Add(c, d)) == Add(Add(a, c), Add(b, d))
  {}

  lemma AddZero(a: Poly)
    ensures Add(a, ZERO) == a == Add(ZERO, a)
  {}
}

module Linear {
  import opened Polynomials

  type Map = Poly -> Poly

  function Iterate(f: Map, v: Poly, k: nat): Poly { if k == 0 then v else f(Iterate(f, v, k - 1)) }

  function Combine(f: Map, a: Poly, b: Poly, n: nat): Poly {
    if n == 0 then ZERO else
    var p := Combine(f, a, b, n - 1);
    if n - 1 in a.terms then Add(p, Iterate(f, b, n - 1)) else p
  }

  ghost predicate Additive(f: Map) { forall a, b :: f(Add(a, b)) == Add(f(a), f(b)) }

  ghost predicate Shifting(f: Map) {
    Additive(f) && forall k: nat {:trigger Iterate(f, ONE, k)} :: k < 128 ==> Iterate(f, ONE, k) == Poly({k})
  }

  lemma {:induction false} IterateAdd(f: Map, a: Poly, b: Poly, k: nat)
    requires Additive(f)
    ensures Iterate(f, Add(a, b), k) == Add(Iterate(f, a, k), Iterate(f, b, k))
  {
    if k > 0 { IterateAdd(f, a, b, k - 1); }
  }

  lemma {:induction false} CombineAddLeft(f: Map, a: Poly, b: Poly, c: Poly, n: nat)
    ensures Combine(f, Add(a, b), c, n) == Add(Combine(f, a, c, n), Combine(f, b, c, n))
  {
    AddZero(ZERO);
    if n > 0 {
      CombineAddLeft(f, a, b, c, n - 1);
      var p, q, t := Combine(f, a, c, n - 1), Combine(f, b, c, n - 1), Iterate(f, c, n - 1);
      assert Add(Add(p, q), t).terms == Add(Add(p, t), q).terms == Add(p, Add(q, t)).terms;
      assert Add(Add(p, t), Add(q, t)).terms == Add(p, q).terms;
    }
  }

  lemma {:induction false} CombineAddRight(f: Map, a: Poly, b: Poly, c: Poly, n: nat)
    requires Additive(f)
    ensures Combine(f, a, Add(b, c), n) == Add(Combine(f, a, b, n), Combine(f, a, c, n))
  {
    AddZero(ZERO);
    if n > 0 {
      CombineAddRight(f, a, b, c, n - 1);
      IterateAdd(f, b, c, n - 1);
      Swap(Combine(f, a, b, n - 1), Combine(f, a, c, n - 1), Iterate(f, b, n - 1), Iterate(f, c, n - 1));
    }
  }

  lemma {:induction false} IterateSwap(f: Map, v: Poly, k: nat)
    ensures Iterate(f, f(v), k) == f(Iterate(f, v, k))
  {
    if k > 0 { IterateSwap(f, v, k - 1); }
  }

  lemma FixesZero(f: Map)
    requires Additive(f)
    ensures f(ZERO) == ZERO
  {
    AddZero(ZERO);
    var z := f(ZERO);
    assert z == Add(z, z);
    assert Add(z, z).terms == {};
  }

  lemma {:induction false} CombineMap(f: Map, a: Poly, b: Poly, n: nat)
    requires Additive(f)
    ensures Combine(f, a, f(b), n) == f(Combine(f, a, b, n))
  {
    FixesZero(f);
    if n > 0 { CombineMap(f, a, b, n - 1); IterateSwap(f, b, n - 1); }
  }

  lemma {:induction false} CombineIterate(f: Map, a: Poly, b: Poly, n: nat, k: nat)
    requires Additive(f)
    ensures Combine(f, a, Iterate(f, b, k), n) == Iterate(f, Combine(f, a, b, n), k)
  {
    if k > 0 { CombineIterate(f, a, b, n, k - 1); CombineMap(f, a, Iterate(f, b, k - 1), n); }
  }

  lemma {:induction false} CombineOne(f: Map, a: Poly, n: nat)
    requires Shifting(f) && n <= 128
    ensures Combine(f, a, ONE, n).terms == set i | i in a.terms && i < n
  {
    if n > 0 {
      CombineOne(f, a, n - 1);
      assert Iterate(f, ONE, n - 1) == Poly({n - 1});
    }
  }

  lemma {:induction false} CombineZero(f: Map, a: Poly, n: nat)
    requires Additive(f)
    ensures Combine(f, a, ZERO, n) == ZERO
  {
    FixesZero(f);
    AddZero(ZERO);
    CombineAddRight(f, a, ZERO, ZERO, n);
    var p := Combine(f, a, ZERO, n);
    assert Add(p, p).terms == {};
  }

  function Mul(f: Map, a: Poly, b: Poly): Poly { Combine(f, a, b, 128) }

  lemma MulOne(f: Map, a: Poly)
    requires Shifting(f) && Reduced(a)
    ensures Mul(f, a, ONE) == a
  {
    CombineOne(f, a, 128);
    assert (set i | i in a.terms && i < 128) == a.terms;
  }

  lemma {:induction false} MulCombine(f: Map, a: Poly, b: Poly, c: Poly, n: nat)
    requires Additive(f)
    ensures Mul(f, c, Combine(f, a, b, n)) == Combine(f, a, Mul(f, c, b), n)
  {
    if n == 0 {
      CombineZero(f, c, 128);
    } else {
      MulCombine(f, a, b, c, n - 1);
      CombineAddRight(f, c, Combine(f, a, b, n - 1), Iterate(f, b, n - 1), 128);
      CombineIterate(f, c, b, 128, n - 1);
    }
  }

  lemma MulCommutes(f: Map, a: Poly, b: Poly)
    requires Shifting(f) && Reduced(a) && Reduced(b)
    ensures Mul(f, a, b) == Mul(f, b, a)
  {
    MulOne(f, a);
    MulOne(f, b);
    MulCombine(f, a, ONE, b, 128);
  }

  // c * (a * b) = a * (c * b)
  lemma MulAssociates(f: Map, a: Poly, b: Poly, c: Poly)
    requires Shifting(f) && Reduced(a) && Reduced(b) && Reduced(c)
    requires Reduced(Mul(f, a, b)) && Reduced(Mul(f, b, c))
    ensures Mul(f, Mul(f, a, b), c) == Mul(f, a, Mul(f, b, c))
  {
    MulCommutes(f, Mul(f, a, b), c);
    MulCombine(f, a, b, c, 128);
    MulCommutes(f, c, b);
  }
}

module Reduction {
  import opened Polynomials
  import opened Linear

  function TimesX(v: Poly): Poly { if 127 in v.terms then Add(Shift(v, 1), MODULUS) else Shift(v, 1) }

  lemma TimesXShifting()
    ensures Shifting(TimesX)
  {
    forall a, b ensures TimesX(Add(a, b)) == Add(TimesX(a), TimesX(b)) { TimesXAdd(a, b); }
    forall k: nat {:trigger Iterate(TimesX, ONE, k)} | k < 128
      ensures Iterate(TimesX, ONE, k) == Poly({k})
    {
      Monomial(k);
    }
  }

  lemma TimesXAdd(a: Poly, b: Poly)
    ensures TimesX(Add(a, b)) == Add(TimesX(a), TimesX(b))
  {
    assert TimesX(Add(a, b)).terms == Add(TimesX(a), TimesX(b)).terms;
  }

  lemma {:induction false} Monomial(k: nat)
    requires k < 128
    ensures Iterate(TimesX, ONE, k) == Poly({k})
  {
    if k > 0 {
      Monomial(k - 1);
      assert Shift(Poly({k - 1}), 1).terms == {k};
    }
  }

  lemma {:induction false} CombineReduced(a: Poly, b: Poly, n: nat)
    requires Reduced(b)
    ensures Reduced(Combine(TimesX, a, b, n)) && Reduced(Iterate(TimesX, b, n))
  {
    if n > 0 { CombineReduced(a, b, n - 1); TimesXReduced(Iterate(TimesX, b, n - 1)); }
  }

  lemma TimesXReduced(v: Poly)
    requires Reduced(v)
    ensures Reduced(TimesX(v))
  {}

  // ---- Iterated shifting is a remainder ----

  lemma ShiftShift(a: Poly, i: nat, j: nat)
    ensures Shift(Shift(a, i), j) == Shift(a, i + j)
  {}

  lemma ShiftAdd(a: Poly, b: Poly, j: nat)
    ensures Shift(Add(a, b), j) == Add(Shift(a, j), Shift(b, j))
  {}

  lemma CancelShift(a: Poly, d: nat)
    requires d >= 128
    ensures Cancel(Shift(a, 1), d + 1) == Shift(Cancel(a, d), 1)
  {
    if d in a.terms {
      ShiftShift(MODULUS, d - 128, 1);
      ShiftAdd(a, Shift(MODULUS, d - 128), 1);
    }
  }

  lemma CancelAdd(a: Poly, b: Poly, d: nat)
    requires d >= 128
    ensures Cancel(Add(a, b), d) == Add(Cancel(a, d), Cancel(b, d))
  {}

  lemma {:induction false} RemainderAdd(a: Poly, b: Poly, d: nat)
    ensures Remainder(Add(a, b), d) == Add(Remainder(a, d), Remainder(b, d))
    decreases d
  {
    if d >= 128 { CancelAdd(a, b, d); RemainderAdd(Cancel(a, d), Cancel(b, d), d - 1); }
  }

  // Shifting and dividing
  lemma {:induction false} RemainderShift(a: Poly, d: nat)
    requires d >= 127
    ensures Remainder(Shift(a, 1), d + 1) == Remainder(Shift(Remainder(a, d), 1), 128)
    decreases d
  {
    if d >= 128 {
      CancelShift(a, d);
      RemainderShift(Cancel(a, d), d - 1);
    }
  }

  // x * v is one shift and one division step
  lemma TimesXIsRemainder(v: Poly)
    requires Reduced(v)
    ensures Remainder(Shift(v, 1), 128) == TimesX(v)
  {}

  lemma {:induction false} IterateIsRemainder(v: Poly, k: nat)
    requires Reduced(v)
    ensures Iterate(TimesX, v, k) == Remainder(Shift(v, k), 127 + k)
  {
    if k == 0 {
      assert Shift(v, 0).terms == v.terms;
    } else {
      IterateIsRemainder(v, k - 1);
      ShiftShift(v, k - 1, 1);
      RemainderShift(Shift(v, k - 1), 126 + k);
      CombineReduced(ZERO, v, k - 1);
      TimesXIsRemainder(Iterate(TimesX, v, k - 1));
    }
  }

  lemma {:induction false} RemainderSkips(a: Poly, d: nat, e: nat)
    requires 127 <= d <= e && forall i <- a.terms :: i <= d
    ensures Remainder(a, e) == Remainder(a, d)
    decreases e
  {
    if d < e { RemainderSkips(a, d, e - 1); }
  }

  function Below(a: Poly, n: nat): Poly { Poly(set i | i in a.terms && i < n) }

  lemma {:induction false} CombineIsRemainder(a: Poly, b: Poly, n: nat)
    requires Reduced(b) && n <= 128
    ensures Combine(TimesX, a, b, n) == Remainder(Product(Below(a, n), b), 254)
    decreases n
  {
    if n == 0 {
      assert Product(Below(a, 0), b).terms == {};
      RemainderSkips(ZERO, 127, 254);
    } else {
      CombineIsRemainder(a, b, n - 1);
      if n - 1 in a.terms {
        assert Below(a, n).terms == Below(a, n - 1).terms + {n - 1};
        ProductStep(Below(a, n - 1), b, n - 1);
        RemainderAdd(Product(Below(a, n - 1), b), Shift(b, n - 1), 254);
        IterateIsRemainder(b, n - 1);
        RemainderSkips(Shift(b, n - 1), 126 + n, 254);
      } else {
        assert Below(a, n).terms == Below(a, n - 1).terms;
      }
    }
  }

  lemma MulIsRemainder(a: Poly, b: Poly)
    requires Reduced(a) && Reduced(b)
    ensures Mul(TimesX, a, b) == Remainder(Product(a, b), 254)
  {
    CombineIsRemainder(a, b, 128);
    assert Below(a, 128).terms == a.terms;
  }

  // ---- Remainder is what it is called ----

  function Quotient(a: Poly, d: nat): Poly
    decreases d
  {
    if d < 128 then ZERO
    else
      var q := Quotient(Cancel(a, d), d - 1);
      if d in a.terms then Poly(q.terms + {d - 128}) else q
  }

  lemma {:induction false} QuotientBelow(a: Poly, d: nat)
    ensures forall i <- Quotient(a, d).terms :: i + 128 <= d
    decreases d
  {
    if d >= 128 { QuotientBelow(Cancel(a, d), d - 1); }
  }

  // Dividend = quotient * modulus + remainder, with a remainder of degree below 128
  lemma {:induction false} Division(a: Poly, d: nat)
    requires forall i <- a.terms :: i <= d
    ensures a == Add(Product(Quotient(a, d), MODULUS), Remainder(a, d))
    ensures Reduced(Remainder(a, d))
    decreases d
  {
    hide Product;
    if d < 128 {
      NoTerms(MODULUS);
      AddZero(a);
    } else {
      var next, n := Cancel(a, d), d - 128;
      CancelBelow(a, d);
      Division(next, d - 1);
      if d in a.terms {
        QuotientBelow(next, d - 1);
        ProductStep(Quotient(next, d - 1), MODULUS, n);
        AddBack(a, Shift(MODULUS, n), Product(Quotient(next, d - 1), MODULUS), Remainder(next, d - 1));
      }
    }
  }

  lemma NoTerms(b: Poly)
    ensures Product(ZERO, b) == ZERO
  {}

  lemma CancelBelow(a: Poly, d: nat)
    requires d >= 128 && forall i <- a.terms :: i <= d
    ensures forall i <- Cancel(a, d).terms :: i <= d - 1
  {}

  // From a + s = p + r to a = (p + s) + r
  lemma AddBack(a: Poly, s: Poly, p: Poly, r: Poly)
    requires Add(a, s) == Add(p, r)
    ensures a == Add(Add(p, s), r)
  {}

  lemma {:induction false} MultipleVanishes(q: Poly, d: nat, n: nat)
    requires d >= 127 && n + 128 <= d + 1 && forall i <- q.terms :: i < n
    ensures Remainder(Product(q, MODULUS), d) == ZERO
    decreases n
  {
    hide Product;
    if n == 0 {
      assert q.terms == {};
      NoTerms(MODULUS);
      RemainderSkips(ZERO, 127, d);
    } else if n - 1 in q.terms {
      var rest := Poly(q.terms - {n - 1});
      assert q.terms == rest.terms + {n - 1};
      ProductStep(rest, MODULUS, n - 1);
      MultipleVanishes(rest, d, n - 1);
      RemainderAdd(Product(rest, MODULUS), Shift(MODULUS, n - 1), d);
      ShiftedModulusVanishes(n - 1, d);
      AddZero(ZERO);
    } else {
      MultipleVanishes(q, d, n - 1);
    }
  }

  lemma ShiftedModulusVanishes(n: nat, d: nat)
    requires d >= n + 128
    ensures Remainder(Shift(MODULUS, n), d) == ZERO
  {
    var s := Shift(MODULUS, n);
    RemainderSkips(s, n + 128, d);
    assert 128 in MODULUS.terms && n + 128 in s.terms;
    assert Add(s, s).terms == {};
    RemainderSkips(ZERO, 127, n + 127);
  }

  // There is only one remainder of degree below 128
  lemma RemainderUnique(a: Poly, q: Poly, r: Poly, d: nat)
    requires d >= 127 && (forall i <- q.terms :: i + 128 <= d) && Reduced(r)
    requires a == Add(Product(q, MODULUS), r)
    ensures r == Remainder(a, d)
  {
    hide Product;
    MultipleVanishes(q, d, d - 127);
    RemainderAdd(Product(q, MODULUS), r, d);
    RemainderSkips(r, 127, d);
    AddZero(r);
  }

  lemma ProductDegree(a: Poly, b: Poly)
    requires Reduced(a) && Reduced(b)
    ensures forall i <- Product(a, b).terms :: i <= 254
  {}
}
