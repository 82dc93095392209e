/** Unsigned 64-bit words: the arithmetic of uint64_t written out on natural numbers. */
module Words {
  const TWO63 := 0x8000_0000_0000_0000
  const TWO64 := 0x1_0000_0000_0000_0000

  type uint64 = x: int | 0 <= x < TWO64

  function Pow2(n: nat): (p: nat)
    ensures p >= 1
  {
    if n == 0 then 1 else 2 * Pow2(n - 1)
  }

  // Bit k of x, counted from the least significant
  predicate Bit(x: nat, k: nat) { if k == 0 then x % 2 == 1 else Bit(x / 2, k - 1) }

  // The bitwise operators
  function Xor(a: nat, b: nat): nat {
    if a == 0 && b == 0 then 0 else 2 * Xor(a / 2, b / 2) + (if a % 2 != b % 2 then 1 else 0)
  }

  function And(a: nat, b: nat): nat {
    if a == 0 || b == 0 then 0 else 2 * And(a / 2, b / 2) + (if a % 2 == 1 && b % 2 == 1 then 1 else 0)
  }

  function Or(a: nat, b: nat): nat {
    if a == 0 && b == 0 then 0 else 2 * Or(a / 2, b / 2) + (if a % 2 == 1 || b % 2 == 1 then 1 else 0)
  }

  function Xor64(a: uint64, b: uint64): uint64 { Widths(); XorBound(a, b, 64); Xor(a, b) }
  function And64(a: uint64, b: uint64): uint64 { AndBound(a, b); And(a, b) }
  function Or64(a: uint64, b: uint64): uint64 { Widths(); OrBound(a, b, 64); Or(a, b) }

  // x >> k, x << k and 0 - x, as uint64_t computes them
  function ShiftRight(x: uint64, k: nat): uint64 { DivBound(x, Pow2(k)); x / Pow2(k) }
  function ShiftLeft(x: nat, k: nat): uint64 { x * Pow2(k) % TWO64 }
  function Negate(x: uint64): uint64 { (TWO64 - x) % TWO64 }

  lemma {:induction false} XorBit(a: nat, b: nat, k: nat)
    ensures Bit(Xor(a, b), k) == (Bit(a, k) != Bit(b, k))
  {
    hide Xor;
    XorHalves(a, b);
    if k > 0 { XorBit(a / 2, b / 2, k - 1); }
  }

  lemma XorHalves(a: nat, b: nat)
    ensures Xor(a, b) / 2 == Xor(a / 2, b / 2)
    ensures Xor(a, b) % 2 == 1 <==> a % 2 != b % 2
  {}

  lemma {:induction false} ZeroBit(k: nat)
    ensures !Bit(0, k)
  {
    if k > 0 { ZeroBit(k - 1); }
  }

  lemma {:induction false} XorBound(a: nat, b: nat, n: nat)
    requires a < Pow2(n) && b < Pow2(n)
    ensures Xor(a, b) < Pow2(n)
  {
    if n > 0 { XorBound(a / 2, b / 2, n - 1); }
  }

  lemma {:induction false} AndBound(a: nat, b: nat)
    ensures And(a, b) <= a
  {
    if a > 0 && b > 0 { AndBound(a / 2, b / 2); }
  }

  lemma {:induction false} OrBound(a: nat, b: nat, n: nat)
    requires a < Pow2(n) && b < Pow2(n)
    ensures Or(a, b) < Pow2(n)
  {
    if n > 0 { OrBound(a / 2, b / 2, n - 1); }
  }

  lemma {:induction false} HighBit(a: nat, n: nat)
    requires a < Pow2(n)
    ensures !Bit(a, n)
  {
    if n > 0 { HighBit(a / 2, n - 1); }
  }

  // A number below 2^n is its first n bits
  lemma {:induction false} SameBits(a: nat, b: nat, n: nat)
    requires a < Pow2(n) && b < Pow2(n)
    requires forall k :: 0 <= k < n ==> Bit(a, k) == Bit(b, k)
    ensures a == b
  {
    if n > 0 {
      forall k | 0 <= k < n - 1 ensures Bit(a / 2, k) == Bit(b / 2, k) {
        assert Bit(a, k + 1) == Bit(b, k + 1);
      }
      SameBits(a / 2, b / 2, n - 1);
      assert Bit(a, 0) == Bit(b, 0);
    }
  }

  lemma Halve(high: nat, low: nat, p: nat)
    ensures (high * (2 * p) + low) / 2 == high * p + low / 2
    ensures (high * (2 * p) + low) % 2 == low % 2
  {}

  // high and low side by side, low being n bits wide
  lemma {:induction false} ConcatBit(high: nat, low: nat, n: nat, k: nat)
    requires low < Pow2(n)
    ensures Bit(high * Pow2(n) + low, k) == if k < n then Bit(low, k) else Bit(high, k - n)
    decreases n
  {
    if n > 0 {
      Halve(high, low, Pow2(n - 1));
      if k > 0 { ConcatBit(high, low / 2, n - 1, k - 1); }
    }
  }

  lemma {:induction false} OrConcat(high: nat, low: nat, n: nat)
    requires low < Pow2(n)
    ensures Or(low, high * Pow2(n)) == high * Pow2(n) + low == Or(high * Pow2(n), low)
  {
    if n > 0 {
      Halve(high, 0, Pow2(n - 1));
      Halve(high, low, Pow2(n - 1));
      OrConcat(high, low / 2, n - 1);
    } else {
      OrZero(high);
    }
  }

  lemma {:induction false} OrZero(a: nat)
    ensures Or(a, 0) == a == Or(0, a)
  {
    if a > 0 { OrZero(a / 2); }
  }

  lemma DivBound(x: nat, p: nat)
    requires p > 0
    ensures 0 <= x / p <= x
  {
    Multiple(x / p, p);
  }

  lemma DivDiv(x: nat, p: nat)
    requires p > 0
    ensures x / 2 / p == x / (2 * p)
  {
    var q, r := x / (2 * p), x % (2 * p);
    assert x == q * (2 * p) + r == 2 * (q * p) + r;
    assert x / 2 == q * p + r / 2;
    assert 0 <= r / 2 < p;
    DivUnique(x / 2, p, q, r / 2);
  }

  lemma DivUnique(x: int, p: int, q: int, r: int)
    requires x == q * p + r && 0 <= r < p
    ensures x / p == q && x % p == r
  {
    var q', r' := x / p, x % p;
    assert p * (q - q') == r' - r;
    Multiple(p, q - q');
  }

  lemma {:induction false} Multiple(p: nat, k: int)
    ensures k > 0 ==> p * k >= p
    ensures k < 0 ==> p * k <= 0 - p
    decreases if k < 0 then -k else k
  {
    if k > 1 { Multiple(p, k - 1); }
    if k < -1 { Multiple(p, k + 1); }
  }

  // (x >> k) & 1
  lemma {:induction false} ShiftRightBit(x: uint64, k: nat)
    ensures And64(ShiftRight(x, k), 1) == if Bit(x, k) then 1 else 0
  {
    if k > 0 {
      ShiftRightBit(x / 2, k - 1);
      DivDiv(x, Pow2(k - 1));
      assert ShiftRight(x, k) == ShiftRight(x / 2, k - 1);
    } else {
      LowBit(x);
    }
  }

  // v & (0 - bit) selects v or 0 without a branch
  lemma Select(v: uint64, bit: nat)
    requires bit < 2
    ensures And64(v, Negate(bit)) == if bit == 1 then v else 0
  {
    Widths();
    AndOnes(v, 64);
  }

  lemma {:induction false} AndOnes(v: nat, n: nat)
    requires v < Pow2(n)
    ensures And(v, Pow2(n) - 1) == v
  {
    hide And;
    if n == 0 {
      AndHalves(0, 0);
    } else {
      AndHalves(v, Pow2(n) - 1);
      AndOnes(v / 2, n - 1);
      assert (Pow2(n) - 1) / 2 == Pow2(n - 1) - 1;
    }
  }

  lemma AndHalves(a: nat, b: nat)
    ensures And(a, b) / 2 == And(a / 2, b / 2)
    ensures And(a, b) % 2 == 1 <==> a % 2 == 1 && b % 2 == 1
    ensures And(a, b) <= a
  {
    AndBound(a, b);
  }

  lemma {:induction false} Pow2Add(a: nat, b: nat)
    ensures Pow2(a + b) == Pow2(a) * Pow2(b)
  {
    if a > 0 { Pow2Add(a - 1, b); }
  }

  lemma {:induction false} Pow2Monotone(a: nat, b: nat)
    requires a <= b
    ensures Pow2(a) <= Pow2(b)
  {
    if a < b { Pow2Monotone(a, b - 1); }
  }

  lemma Widths()
    ensures Pow2(64) == TWO64 && Pow2(63) == TWO63 && Pow2(56) == 0x100_0000_0000_0000
  {
    assert Pow2(7) == 0x80;
    Pow2Add(7, 1);
    Pow2Add(8, 8);
    Pow2Add(16, 16);
    Pow2Add(32, 16);
    Pow2Add(48, 8);
    Pow2Add(56, 7);
    Pow2Add(56, 8);
  }

  // (lo >> 1) | (hi << 63)
  lemma ShiftInto(lo: uint64, hi: uint64)
    ensures Or64(ShiftRight(lo, 1), ShiftLeft(hi, 63)) == lo / 2 + hi % 2 * TWO63
  {
    Widths();
    DivUnique(hi * TWO63, TWO64, hi / 2, hi % 2 * TWO63);
    assert ShiftLeft(hi, 63) == hi % 2 * TWO63;
    assert Pow2(1) == 2;
    OrConcat(hi % 2, lo / 2, 63);
  }

  lemma LowBit(x: uint64)
    ensures And64(x, 1) == x % 2
  {
    assert And(x / 2, 0) == 0;
  }
}
