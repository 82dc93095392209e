/** One flipped ciphertext bit: the hash of the difference is a power of the hash key times a power of x, and neither
    can vanish unless the key does, because the modulus has no square factor. */
module BitFlips {
  import opened Words
  import opened Blocks
  import opened Bytes
  import opened Frames
  import opened GhashTree
  import opened Gcm
  import opened Kernels
  import opened Tampering

  // ---- Squares of polynomials ----

  // i -> k - i takes each set into the other
  predicate Mirrors(a: set<nat>, b: set<nat>, k: nat) {
    (forall i <- a :: i <= k && k - i in b) && (forall i <- b :: i <= k && k - i in a)
  }

  lemma MirrorStep(a: set<nat>, b: set<nat>, k: nat, i: nat)
    requires Mirrors(a, b, k) && i in a
    ensures i <= k && k - i in b && Mirrors(a - {i}, b - {k - i}, k)
  {}

  lemma {:induction false} MirrorSize(a: set<nat>, b: set<nat>, k: nat)
    requires Mirrors(a, b, k)
    ensures |a| == |b|
    decreases |a|
  {
    if a == {} {
      assert b == {};
    } else {
      hide Mirrors;
      var i :| i in a;
      MirrorStep(a, b, k, i);
      MirrorSize(a - {i}, b - {k - i}, k);
    }
  }

  // The pairs below, at and above the middle
  function Part(a: P.Poly, k: nat, side: int): set<nat> {
    set i | i in P.Pairs(a, a, k) && (if side < 0 then 2 * i < k else if side > 0 then 2 * i > k else 2 * i == k)
  }

  lemma Parts(a: P.Poly, k: nat)
    ensures P.Pairs(a, a, k) == Part(a, k, -1) + Part(a, k, 1) + Part(a, k, 0)
    ensures Part(a, k, -1) !! Part(a, k, 1) && (Part(a, k, -1) + Part(a, k, 1)) !! Part(a, k, 0)
  {}

  lemma SidesEqual(a: P.Poly, k: nat)
    ensures |Part(a, k, -1)| == |Part(a, k, 1)|
  {
    MirrorSize(Part(a, k, -1), Part(a, k, 1), k);
  }

  lemma Middle(a: P.Poly, k: nat)
    ensures |Part(a, k, 0)| == if k % 2 == 0 && k / 2 in a.terms then 1 else 0
  {
    if k % 2 == 0 && k / 2 in a.terms {
      assert Part(a, k, 0) == {k / 2};
    } else {
      assert Part(a, k, 0) == {};
    }
  }

  // The coefficient of x^k in the square of a: that of x^(k/2) in a, or none
  lemma SquareCoefficient(a: P.Poly, k: nat)
    ensures P.Coefficient(a, a, k) <==> k % 2 == 0 && k / 2 in a.terms
  {
    hide Part, P.Pairs;
    Parts(a, k);
    SidesEqual(a, k);
    Middle(a, k);
    var low, high, mid := Part(a, k, -1), Part(a, k, 1), Part(a, k, 0);
    assert |low + high| == |low| + |high|;
    assert |low + high + mid| == |low + high| + |mid|;
  }

  predicate Has(q: P.Poly, k: int) { k >= 0 && k in q.terms }

  function At(q: P.Poly, k: int): set<nat> { if Has(q, k) then {k} else {} }

  lemma AtSize(q: P.Poly, k: int)
    ensures |At(q, k)| == if Has(q, k) then 1 else 0
  {}

  lemma ModulusPairs(q: P.Poly, k: nat)
    ensures P.Pairs(q, P.MODULUS, k) == At(q, k) + At(q, k - 1) + At(q, k - 2) + At(q, k - 7) + At(q, k - 128)
  {}

  lemma FiveSets(a: set<nat>, b: set<nat>, c: set<nat>, d: set<nat>, f: set<nat>)
    requires a !! b !! c !! d !! f
    ensures |a + b + c + d + f| == |a| + |b| + |c| + |d| + |f|
  {
    assert |a + b| == |a| + |b|;
    assert |a + b + c| == |a + b| + |c|;
    assert |a + b + c + d| == |a + b + c| + |d|;
  }

  function Count(b: bool): nat { if b then 1 else 0 }

  lemma Parity(a: bool, b: bool, c: bool, d: bool, f: bool)
    ensures (Count(a) + Count(b) + Count(c) + Count(d) + Count(f)) % 2 == 1 <==> ((((a != b) != c) != d) != f)
  {}

  // Whether x^k has a coefficient in q * (x^128 + x^7 + x^2 + x + 1), read off q
  predicate Multiplied(q: P.Poly, k: nat) {
    (((Has(q, k) != Has(q, k - 1)) != Has(q, k - 2)) != Has(q, k - 7)) != Has(q, k - 128)
  }

  lemma ModulusCoefficient(q: P.Poly, k: nat)
    ensures P.Coefficient(q, P.MODULUS, k) <==> Multiplied(q, k)
  {
    hide P.Pairs, Has, At;
    ModulusPairs(q, k);
    AtSize(q, k);
    AtSize(q, k - 1);
    AtSize(q, k - 2);
    AtSize(q, k - 7);
    AtSize(q, k - 128);
    AllApart(q, k);
    FiveSets(At(q, k), At(q, k - 1), At(q, k - 2), At(q, k - 7), At(q, k - 128));
    Parity(Has(q, k), Has(q, k - 1), Has(q, k - 2), Has(q, k - 7), Has(q, k - 128));
  }

  lemma AllApart(q: P.Poly, k: nat)
    ensures At(q, k) !! At(q, k - 1) !! At(q, k - 2) !! At(q, k - 7) !! At(q, k - 128)
  {}

  // ---- No square factor ----

  predicate Squared(a: P.Poly, k: nat) { k % 2 == 0 && k / 2 in a.terms }

  // What a * a = q * modulus says of the coefficients of q
  ghost predicate Divides(q: P.Poly, a: P.Poly) { forall k: nat :: Squared(a, k) <==> Multiplied(q, k) }

  lemma DividesAt(q: P.Poly, a: P.Poly)
    requires P.Product(a, a) == P.Product(q, P.MODULUS)
    ensures Divides(q, a)
  {
    hide P.Product, P.Coefficient, Multiplied;
    forall k: nat ensures Squared(a, k) <==> Multiplied(q, k) {
      P.InProduct(a, a, k);
      P.InProduct(q, P.MODULUS, k);
      SquareCoefficient(a, k);
      ModulusCoefficient(q, k);
    }
  }

  // Even and odd coefficients of q, one equation for each odd power
  lemma OddPower(q: P.Poly, a: P.Poly, m: nat)
    requires Divides(q, a)
    ensures (Has(q, 2 * m) != Has(q, 2 * m - 6)) == ((Has(q, 2 * m + 1) != Has(q, 2 * m - 1)) != Has(q, 2 * m - 127))
  {
    hide Has;
    var k := 2 * m + 1;
    assert Squared(a, k) <==> Multiplied(q, k);
    assert !Squared(a, k);
  }

  // Beyond the degree of q only the last term of the equation is left
  lemma OddAbove(q: P.Poly, a: P.Poly, m: nat)
    requires Divides(q, a) && (forall i <- q.terms :: i <= 126) && m >= 3
    ensures !Has(q, 2 * m + 1)
  {
    hide Divides;
    OddPower(q, a, m + 64);
  }

  // From x^9 on the equation says that the even coefficients repeat
  lemma {:induction false} EvenRepeats(q: P.Poly, a: P.Poly, m: nat, n: nat)
    requires Divides(q, a) && (forall i <- q.terms :: i <= 126) && m >= 1 && m + 3 * n <= 63
    ensures Has(q, 2 * (m + 3 * n)) == Has(q, 2 * m)
    decreases n
  {
    hide Divides, Has;
    if n > 0 {
      var t := m + 3 * n;
      EvenRepeats(q, a, m, n - 1);
      OddPower(q, a, t);
      OddAbove(q, a, t);
      OddAbove(q, a, t - 1);
      NoneBelow(q, 2 * t - 127);
      assert 2 * (m + 3 * (n - 1)) == 2 * t - 6 && 2 * (t - 1) + 1 == 2 * t - 1;
    }
  }

  lemma NoneBelow(q: P.Poly, k: int)
    requires k < 0
    ensures !Has(q, k)
  {}

  // A multiple of the modulus is a square only of zero: the modulus has no square factor
  lemma NoSquareFactor(q: P.Poly, a: P.Poly)
    requires Divides(q, a) && forall i <- q.terms :: i <= 126
    ensures q.terms == {} && a.terms == {}
  {
    hide Divides, Has;
    LowCoefficients(q, a);
    forall i: nat ensures i !in q.terms { NoCoefficient(q, a, i); }
    forall i: nat ensures i !in a.terms { SquareVanishes(q, a, i); }
  }

  // The first and the last equations leave no odd coefficient and none of 1, x^2, x^4, x^6
  lemma LowCoefficients(q: P.Poly, a: P.Poly)
    requires Divides(q, a) && forall i <- q.terms :: i <= 126
    ensures !Has(q, 1) && !Has(q, 3) && !Has(q, 5) && !Has(q, 0) && !Has(q, 2) && !Has(q, 4) && !Has(q, 6)
  {
    hide Divides, Multiplied;
    OddPower(q, a, 0);
    OddPower(q, a, 1);
    OddPower(q, a, 2);
    OddPower(q, a, 3);
    OddPower(q, a, 64);
    OddPower(q, a, 65);
    OddPower(q, a, 66);
    OddAbove(q, a, 3);
    EvenRepeats(q, a, 3, 20);
    EvenRepeats(q, a, 2, 20);
    EvenRepeats(q, a, 1, 20);
  }

  lemma NoCoefficient(q: P.Poly, a: P.Poly, i: nat)
    requires Divides(q, a) && (forall k <- q.terms :: k <= 126)
    requires !Has(q, 1) && !Has(q, 3) && !Has(q, 5) && !Has(q, 0) && !Has(q, 2) && !Has(q, 4) && !Has(q, 6)
    ensures i !in q.terms
  {
    hide Divides;
    if i % 2 == 1 {
      if i >= 7 { OddAbove(q, a, i / 2); }
    } else if 8 <= i <= 126 {
      var r := (i / 2 - 1) % 3 + 1;
      EvenRepeats(q, a, r, (i / 2 - r) / 3);
      assert r + 3 * ((i / 2 - r) / 3) == i / 2 && r in {1, 2, 3};
    }
  }

  lemma SquareVanishes(q: P.Poly, a: P.Poly, i: nat)
    requires Divides(q, a) && q.terms == {}
    ensures i !in a.terms
  {
    assert Squared(a, 2 * i) <==> Multiplied(q, 2 * i);
  }

  // ---- Powers of the hash key ----

  lemma MulZero(a: Block128)
    ensures Mul(ZERO, a) == ZERO == Mul(a, ZERO)
  {
    hide Mul, Add;
    AddLaws(ZERO, ZERO, ZERO);
    MulDistributes(ZERO, ZERO, a);
    AddLaws(Mul(ZERO, a), ZERO, ZERO);
    AddLaws(Mul(a, ZERO), ZERO, ZERO);
  }

  lemma SquareIsZero(h: Block128)
    requires Mul(h, h) == ZERO
    ensures h == ZERO
  {
    hide Mul, P.Product, R.Quotient, ToPoly, P.Remainder;
    var a := ToPoly(h);
    var square := P.Product(a, a);
    var q := R.Quotient(square, 254);
    MulIsPolynomialProduct(h, h);
    ToPolyZero();
    ToPolyMul(h, h);
    R.ProductDegree(a, a);
    R.Division(square, 254);
    R.QuotientBelow(square, 254);
    P.AddZero(P.Product(q, P.MODULUS));
    DividesAt(q, a);
    NoSquareFactor(q, a);
    assert a == P.ZERO;
    ToPolyInjective(h, ZERO);
  }

  lemma {:induction false} PowerIsZero(h: Block128, k: nat)
    requires k > 0 && Pow(h, k) == ZERO
    ensures h == ZERO
    decreases k
  {
    hide Mul;
    if k == 1 {
      MulOne(h);
    } else {
      var m := (k + 1) / 2;
      PowAdd(h, k, 2 * m - k);
      MulZero(Pow(h, 2 * m - k));
      PowAdd(h, m, m);
      SquareIsZero(Pow(h, m));
      PowerIsZero(h, m);
    }
  }

  // ---- Multiplying by a power of x loses nothing ----

  lemma TimesXIsZero(v: P.Poly)
    requires R.TimesX(v) == P.ZERO
    ensures v == P.ZERO
  {
    TimesXTop(v);
    forall i: nat ensures i !in v.terms { assert i + 1 !in P.Shift(v, 1).terms; }
    P.Extensional(v, P.ZERO);
  }

  lemma TimesXTop(v: P.Poly)
    ensures 127 in v.terms ==> 0 in R.TimesX(v).terms
  {}

  lemma {:induction false} IterateIsZero(v: P.Poly, k: nat)
    requires L.Iterate(R.TimesX, v, k) == P.ZERO
    ensures v == P.ZERO
  {
    hide R.TimesX;
    if k > 0 {
      TimesXIsZero(L.Iterate(R.TimesX, v, k - 1));
      IterateIsZero(v, k - 1);
    }
  }

  lemma {:induction false} CombineMonomial(f: L.Map, a: nat, v: P.Poly, n: nat)
    ensures L.Combine(f, P.Poly({a}), v, n) == if n <= a then P.ZERO else L.Iterate(f, v, a)
  {
    if n > 0 {
      CombineMonomial(f, a, v, n - 1);
      P.AddZero(L.Iterate(f, v, n - 1));
    }
  }

  lemma MonomialKeeps(b: Block128, a: nat, z: Block128)
    requires a < 128 && ToPoly(b) == P.Poly({a}) && Mul(b, z) == ZERO
    ensures z == ZERO
  {
    hide Mul, R.TimesX, ToPoly;
    ToPolyMul(b, z);
    ToPolyZero();
    CombineMonomial(R.TimesX, a, ToPoly(z), 128);
    IterateIsZero(ToPoly(z), a);
    ToPolyInjective(z, ZERO);
  }

  // ---- The hash of a single block ----

  lemma {:induction false} GhashZeros(h: Block128, xs: seq<Block128>)
    requires forall k :: 0 <= k < |xs| ==> xs[k] == ZERO
    ensures Ghash(h, xs) == ZERO
  {
    hide Mul, Add;
    if xs != [] {
      GhashZeros(h, xs[..|xs| - 1]);
      AddLaws(ZERO, ZERO, ZERO);
      MulZero(h);
    }
  }

  lemma {:induction false} GhashSingle(h: Block128, xs: seq<Block128>, i: nat)
    requires i < |xs| && forall k :: 0 <= k < |xs| && k != i ==> xs[k] == ZERO
    ensures Ghash(h, xs) == Mul(xs[i], Pow(h, |xs| - i))
  {
    hide Mul, Add;
    var n := |xs| - 1;
    if i == n {
      GhashZeros(h, xs[..n]);
      AddLaws(ZERO, xs[n], ZERO);
      AddLaws(xs[n], ZERO, ZERO);
      MulOne(h);
      assert Pow(h, 0) == ONE && Pow(h, 1) == Mul(ONE, h);
    } else {
      GhashSingle(h, xs[..n], i);
      AddLaws(Ghash(h, xs[..n]), ZERO, ZERO);
      MulAssociates(xs[i], Pow(h, n - i), h);
    }
  }

  // ---- One bit ----

  // d is c with one bit flipped
  ghost predicate Flipped(c: seq<byte>, d: seq<byte>, pos: nat, bit: nat) {
    && |c| == |d| && pos < |c| && bit < 8
    && forall p, k :: 0 <= p < |c| && 0 <= k < 8 ==> (Bit(c[p], k) != Bit(d[p], k) <==> p == pos && k == bit)
  }

  // Only that bit of s is set
  ghost predicate OneBit(s: seq<byte>, pos: nat, bit: nat) {
    forall p, k :: 0 <= p < |s| && 0 <= k < 8 ==> (Bit(s[p], k) <==> p == pos && k == bit)
  }

  lemma DifferenceBit(c: seq<byte>, d: seq<byte>, pos: nat, bit: nat)
    requires Flipped(c, d, pos, bit)
    ensures OneBit(PadTo16(XorBytes(c, d)) + Zeros(16), pos, bit)
  {
    hide XorByte, CeilDiv;
    var x, s := XorBytes(c, d), PadTo16(XorBytes(c, d)) + Zeros(16);
    forall p, k | 0 <= p < |s| && 0 <= k < 8 ensures Bit(s[p], k) <==> p == pos && k == bit {
      if p < |c| { XorByteBit(c[p], d[p], k); } else { ZeroBit(k); }
    }
  }

  lemma BlockWithBit(s: seq<byte>, pos: nat, bit: nat, k: nat)
    requires |s| % 16 == 0 && 16 * k < |s| && OneBit(s, pos, bit) && bit < 8
    ensures ToPoly(BlocksOf(s)[k]) == if k == pos / 16 then P.Poly({8 * (pos % 16) + 7 - bit}) else P.ZERO
  {
    hide BlocksOf, BlockOf, BlockBit;
    var t, a := s[16 * k..16 * k + 16], 8 * (pos % 16) + 7 - bit;
    BlocksOfAt(s, k);
    var terms := ToPoly(BlocksOf(s)[k]).terms;
    forall i: nat ensures i in terms <==> k == pos / 16 && i == a {
      if i < 128 {
        LoadedBit(t, i);
        assert t[i / 8] == s[16 * k + i / 8];
        BitPlace(pos, bit, k, i);
      }
    }
    if k == pos / 16 { assert terms == {a}; } else { assert terms == {}; }
  }

  lemma BitPlace(pos: nat, bit: nat, k: nat, i: nat)
    requires bit < 8 && i < 128
    ensures 16 * k + i / 8 == pos && 7 - i % 8 == bit <==> k == pos / 16 && i == 8 * (pos % 16) + 7 - bit
  {}

  lemma FlipHash(h: Block128, c: seq<byte>, d: seq<byte>, pos: nat, bit: nat)
    requires Flipped(c, d, pos, bit)
    ensures Ghash(h, Difference(c, d)) == ZERO <==> h == ZERO
  {
    hide Mul, Pow, Ghash, BlocksOf, OneBit, Flipped, ToPoly, XorBytes;
    FlipInside(c, d, pos, bit);
    var s, a := PadTo16(XorBytes(c, d)) + Zeros(16), 8 * (pos % 16) + 7 - bit;
    var xs, i := BlocksOf(s), pos / 16;
    DifferenceBit(c, d, pos, bit);
    forall k | 0 <= k < |xs| && k != i ensures xs[k] == ZERO {
      BlockWithBit(s, pos, bit, k);
      ToPolyZero();
      ToPolyInjective(xs[k], ZERO);
    }
    BlockWithBit(s, pos, bit, i);
    GhashSingle(h, xs, i);
    if h == ZERO {
      PowerOfZero(|xs| - i);
      MulZero(xs[i]);
    } else if Ghash(h, xs) == ZERO {
      MonomialKeeps(xs[i], a, Pow(h, |xs| - i));
      PowerIsZero(h, |xs| - i);
    }
  }

  lemma FlipInside(c: seq<byte>, d: seq<byte>, pos: nat, bit: nat)
    requires Flipped(c, d, pos, bit)
    ensures |c| == |d| && bit < 8
    ensures var s := PadTo16(XorBytes(c, d)) + Zeros(16); |s| % 16 == 0 && 16 * (pos / 16) < |s|
  {
    hide XorBytes;
  }

  lemma PowerOfZero(k: nat)
    requires k > 0
    ensures Pow(ZERO, k) == ZERO
  {
    hide Mul;
    MulZero(Pow(ZERO, k - 1));
  }

  // A frame with one flipped ciphertext bit is accepted if and only if the cipher takes the zero block to itself, so
  // that the hash key is zero
  lemma FlippedBit(e: Cipher, f: seq<byte>, g: seq<byte>, n: nat, pos: nat, bit: nat)
    requires |f| >= n + OVERHEAD && |g| >= n + OVERHEAD && Accepts(e, f, n)
    requires g[0] == f[0] && FrameIv(g) == FrameIv(f) && TagOf(g, n) == TagOf(f, n)
    requires Flipped(FrameBody(f, n), FrameBody(g, n), pos, bit)
    ensures Accepts(e, g, n) <==> HashKey(e) == ZERO
    ensures Accepts(e, g, n) <==> e(ZEROS16) == ZEROS16
  {
    hide Accepts, Ghash, Difference, Flipped, HashKey;
    TamperedBody(e, f, g, n);
    FlipHash(HashKey(e), FrameBody(f, n), FrameBody(g, n), pos, bit);
    HashKeyZero(e);
  }
}
