/** GF(2^8): sections 4.1 and 4.2 of FIPS 197 on 8-bit words. */
module ByteField {
  function Plus(a: bv8, b: bv8): bv8 { a ^ b }

  function XTime(x: bv8): bv8 { (x << 1) ^ (if x & 0x80 != 0 then 0x1b else 0) }

  function Pick(c: bv8, bit: bv8, a: bv8): bv8 { if c & bit != 0 then a else 0 }

  // a times the low four bits of c
  function Low(c: bv8, a: bv8): bv8 {
    Four(Pick(c, 1, a), Pick(c, 2, XTime(a)), Pick(c, 4, X2(a)), Pick(c, 8, XTime(X2(a))))
  }

  // a times x^2 and x^4
  function X2(a: bv8): bv8 { XTime(XTime(a)) }
  function X4(a: bv8): bv8 { X2(X2(a)) }

  function Four(p: bv8, q: bv8, r: bv8, s: bv8): bv8 { p ^ q ^ r ^ s }

  // The sum of the summands whose bit is set in c
  function Picked(c: bv8, p: bv8, q: bv8, r: bv8, s: bv8, t: bv8, u: bv8, v: bv8, w: bv8): bv8 {
    Plus(Four(Pick(c, 0x01, p), Pick(c, 0x02, q), Pick(c, 0x04, r), Pick(c, 0x08, s)),
         Four(Pick(c, 0x10, t), Pick(c, 0x20, u), Pick(c, 0x40, v), Pick(c, 0x80, w)))
  }

  // The product of c and a: the sum of the x^k * a with x^k in c
  function Mul(c: bv8, a: bv8): bv8 {
    var a1 := XTime(a);
    var a2 := XTime(a1);
    var a3 := XTime(a2);
    var a4 := XTime(a3);
    var a5 := XTime(a4);
    var a6 := XTime(a5);
    Picked(c, a, a1, a2, a3, a4, a5, a6, XTime(a6))
  }

  lemma PlusLaws(a: bv8, b: bv8, c: bv8)
    ensures Plus(a, b) == Plus(b, a) && Plus(Plus(a, b), c) == Plus(a, Plus(b, c))
    ensures Plus(a, a) == 0 && Plus(a, 0) == a
  {}

  lemma PlusTwice(a: bv8, b: bv8)
    ensures Plus(Plus(a, b), b) == a
  {
    hide Plus;
    PlusLaws(a, b, b);
    PlusLaws(b, b, a);
    PlusLaws(a, 0, b);
  }

  lemma Interchange(p: bv8, q: bv8, r: bv8, s: bv8)
    ensures Plus(Plus(p, q), Plus(r, s)) == Plus(Plus(p, r), Plus(q, s))
  {
    hide Plus;
    PlusLaws(p, q, Plus(r, s));
    PlusLaws(q, r, s);
    PlusLaws(r, q, s);
    PlusLaws(p, r, Plus(q, s));
  }

  lemma FourIs(p: bv8, q: bv8, r: bv8, s: bv8)
    ensures Four(p, q, r, s) == Plus(Plus(p, q), Plus(r, s))
  {}

  lemma FourPlus(p: bv8, q: bv8, r: bv8, s: bv8, t: bv8, u: bv8, v: bv8, w: bv8)
    ensures Four(Plus(p, t), Plus(q, u), Plus(r, v), Plus(s, w)) == Plus(Four(p, q, r, s), Four(t, u, v, w))
  {
    hide Plus, Four;
    FourIs(p, q, r, s);
    FourIs(t, u, v, w);
    FourIs(Plus(p, t), Plus(q, u), Plus(r, v), Plus(s, w));
    Interchange(p, t, q, u);
    Interchange(r, v, s, w);
    Interchange(Plus(p, q), Plus(t, u), Plus(r, s), Plus(v, w));
  }

  lemma XTimeShifts(x: bv8)
    ensures XTime(x) == (x << 1) ^ (x >> 7) ^ ((x >> 7) << 1) ^ ((x >> 7) << 3) ^ ((x >> 7) << 4)
  {
    if x & 0x80 != 0 { assert x >> 7 == 1; } else { assert x >> 7 == 0; }
  }

  lemma XTimePlus(a: bv8, b: bv8)
    ensures XTime(Plus(a, b)) == Plus(XTime(a), XTime(b))
  {
    hide XTime;
    XTimeShifts(a);
    XTimeShifts(b);
    XTimeShifts(a ^ b);
  }

  lemma PickPlus(c: bv8, bit: bv8, a: bv8, b: bv8)
    ensures Pick(c, bit, Plus(a, b)) == Plus(Pick(c, bit, a), Pick(c, bit, b))
  {}

  lemma PickXTime(c: bv8, bit: bv8, a: bv8)
    ensures XTime(Pick(c, bit, a)) == Pick(c, bit, XTime(a))
  {}

  lemma X2Plus(a: bv8, b: bv8)
    ensures X2(Plus(a, b)) == Plus(X2(a), X2(b))
  {
    hide XTime, Plus;
    XTimePlus(a, b);
    XTimePlus(XTime(a), XTime(b));
  }

  lemma LowPlus(c: bv8, a: bv8, b: bv8)
    ensures Low(c, Plus(a, b)) == Plus(Low(c, a), Low(c, b))
  {
    hide XTime, Pick, Plus, X2, Four;
    var a1, b1, a2, b2 := XTime(a), XTime(b), X2(a), X2(b);
    var a3, b3 := XTime(a2), XTime(b2);
    XTimePlus(a, b);
    X2Plus(a, b);
    XTimePlus(a2, b2);
    PickPlus(c, 1, a, b);
    PickPlus(c, 2, a1, b1);
    PickPlus(c, 4, a2, b2);
    PickPlus(c, 8, a3, b3);
    FourPlus(Pick(c, 1, a), Pick(c, 2, a1), Pick(c, 4, a2), Pick(c, 8, a3),
             Pick(c, 1, b), Pick(c, 2, b1), Pick(c, 4, b2), Pick(c, 8, b3));
  }

  lemma PickHigh(c: bv8, a: bv8)
    ensures Pick(c >> 4, 0x01, a) == Pick(c, 0x10, a) && Pick(c >> 4, 0x02, a) == Pick(c, 0x20, a)
    ensures Pick(c >> 4, 0x04, a) == Pick(c, 0x40, a) && Pick(c >> 4, 0x08, a) == Pick(c, 0x80, a)
  {}

  lemma MulIs(c: bv8, a: bv8)
    ensures Mul(c, a) == Plus(Low(c, a), Low(c >> 4, X4(a)))
  {
    hide Plus, Pick, XTime, Four;
    var a2, b := X2(a), X4(a);
    var b2 := X2(b);
    PickHigh(c, b);
    PickHigh(c, XTime(b));
    PickHigh(c, b2);
    PickHigh(c, XTime(b2));
  }

  lemma MulPlus(c: bv8, a: bv8, b: bv8)
    ensures Mul(c, Plus(a, b)) == Plus(Mul(c, a), Mul(c, b))
  {
    hide Low, X2, Plus, Mul;
    MulIs(c, a);
    MulIs(c, b);
    MulIs(c, Plus(a, b));
    LowPlus(c, a, b);
    X2Plus(a, b);
    X2Plus(X2(a), X2(b));
    LowPlus(c >> 4, X4(a), X4(b));
    Interchange(Low(c, a), Low(c, b), Low(c >> 4, X4(a)), Low(c >> 4, X4(b)));
  }

  lemma LowXTime(c: bv8, a: bv8)
    ensures Low(c, XTime(a)) == XTime(Low(c, a))
  {
    hide XTime, Pick, Plus, Four;
    var a1, a2 := XTime(a), X2(a);
    var p, q, r, s := Pick(c, 1, a), Pick(c, 2, a1), Pick(c, 4, a2), Pick(c, 8, XTime(a2));
    FourIs(p, q, r, s);
    FourIs(XTime(p), XTime(q), XTime(r), XTime(s));
    PickXTime(c, 1, a);
    PickXTime(c, 2, a1);
    PickXTime(c, 4, a2);
    PickXTime(c, 8, XTime(a2));
    XTimePlus(p, q);
    XTimePlus(r, s);
    XTimePlus(Plus(p, q), Plus(r, s));
  }

  lemma MulXTime(c: bv8, a: bv8)
    ensures Mul(c, XTime(a)) == XTime(Mul(c, a))
  {
    hide XTime, Low, Plus, Mul;
    MulIs(c, a);
    MulIs(c, XTime(a));
    LowXTime(c, a);
    LowXTime(c >> 4, X4(a));
    XTimePlus(Low(c, a), Low(c >> 4, X4(a)));
  }

  lemma MulPick(d: bv8, c: bv8, bit: bv8, a: bv8)
    ensures Mul(d, Pick(c, bit, a)) == Pick(c, bit, Mul(d, a))
  {
    MulZero(d);
    hide Mul;
  }

  lemma MulZero(d: bv8)
    ensures Mul(d, 0) == 0
  {}

  // Multiplications commute
  lemma LowMul(c: bv8, d: bv8, a: bv8)
    ensures Low(c, Mul(d, a)) == Mul(d, Low(c, a))
  {
    hide XTime, Pick, Plus, Mul, Four;
    var a1, a2 := XTime(a), X2(a);
    var p, q, r, s := Pick(c, 1, a), Pick(c, 2, a1), Pick(c, 4, a2), Pick(c, 8, XTime(a2));
    FourIs(p, q, r, s);
    FourIs(Mul(d, p), Mul(d, q), Mul(d, r), Mul(d, s));
    MulXTime(d, a);
    MulXTime(d, a1);
    MulXTime(d, a2);
    MulPick(d, c, 1, a);
    MulPick(d, c, 2, a1);
    MulPick(d, c, 4, a2);
    MulPick(d, c, 8, XTime(a2));
    MulPlus(d, p, q);
    MulPlus(d, r, s);
    MulPlus(d, Plus(p, q), Plus(r, s));
  }

  lemma MulSwaps(c: bv8, d: bv8, a: bv8)
    ensures Mul(c, Mul(d, a)) == Mul(d, Mul(c, a))
  {
    hide XTime, Low, Plus, Mul;
    var b := Mul(d, a);
    assert X4(b) == Mul(d, X4(a)) by {
      MulXTime(d, a);
      MulXTime(d, XTime(a));
      MulXTime(d, X2(a));
      MulXTime(d, XTime(X2(a)));
    }
    LowMul(c, d, a);
    LowMul(c >> 4, d, X4(a));
    MulPlus(d, Low(c, a), Low(c >> 4, X4(a)));
    MulIs(c, b);
    MulIs(c, a);
  }

  lemma MulByOne(c: bv8)
    ensures Mul(c, 1) == c
  {}

  lemma MulCommutes(c: bv8, d: bv8)
    ensures Mul(c, d) == Mul(d, c)
  {
    hide Mul;
    MulByOne(c);
    MulByOne(d);
    MulSwaps(c, d, 1);
  }
}
