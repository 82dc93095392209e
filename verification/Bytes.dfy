/** Big-endian bytes of limbs and blocks: load_be128 and store_be128. */
module Bytes {
  import opened Words
  import opened Blocks

  type byte = x: int | 0 <= x < 256

  // The number whose big-endian bytes are s
  function Number(s: seq<byte>): (v: nat)
    ensures v < Pow2(8 * |s|)
  {
    if s == [] then 0 else
    Pow2Add(8 * (|s| - 1), 8);
    assert Pow2(8) == 256;
    256 * Number(s[..|s| - 1]) + s[|s| - 1]
  }

  // The n low bytes of v, most significant first
  function Digits(v: nat, n: nat): (s: seq<byte>)
    ensures |s| == n
  {
    if n == 0 then [] else Digits(v / 256, n - 1) + [v % 256]
  }

  lemma {:induction false} DigitsNumber(s: seq<byte>)
    ensures Digits(Number(s), |s|) == s
  {
    if s != [] {
      var front, last := s[..|s| - 1], s[|s| - 1];
      DigitsNumber(front);
      assert Number(s) % 256 == last && Number(s) / 256 == Number(front);
      assert s == front + [last];
    }
  }

  lemma NumberAppend(s: seq<byte>, b: byte)
    ensures Number(s + [b]) == 256 * Number(s) + b
  {
    assert (s + [b])[..|s|] == s;
  }

  lemma {:induction false} NumberDigits(v: nat, n: nat)
    requires v < Pow2(8 * n)
    ensures Number(Digits(v, n)) == v
  {
    hide Number;
    if n == 0 {
      NumberEmpty();
    } else {
      Pow2Add(8 * (n - 1), 8);
      assert Pow2(8) == 256;
      NumberDigits(v / 256, n - 1);
      NumberAppend(Digits(v / 256, n - 1), v % 256);
    }
  }

  function BlockOf(s: seq<byte>): Block128
    requires |s| == 16
  {
    Widths();
    Block128(Number(s[..8]), Number(s[8..]))
  }

  function BytesOf(b: Block128): (s: seq<byte>)
    ensures |s| == 16
  {
    Digits(b.hi, 8) + Digits(b.lo, 8)
  }

  lemma BytesOfBlockOf(s: seq<byte>)
    requires |s| == 16
    ensures BytesOf(BlockOf(s)) == s
  {
    DigitsNumber(s[..8]);
    DigitsNumber(s[8..]);
  }

  lemma BlockOfBytesOf(b: Block128)
    ensures BlockOf(BytesOf(b)) == b
  {
    Widths();
    NumberDigits(b.hi, 8);
    NumberDigits(b.lo, 8);
    assert BytesOf(b)[..8] == Digits(b.hi, 8) && BytesOf(b)[8..] == Digits(b.lo, 8);
  }

  lemma {:induction false} NumberBit(s: seq<byte>, k: nat)
    requires k < 8 * |s|
    ensures Bit(Number(s), k) == Bit(s[|s| - 1 - k / 8], k % 8)
  {
    var front, last := s[..|s| - 1], s[|s| - 1];
    assert Pow2(8) == 256;
    ConcatBit(Number(front), last, 8, k);
    if k >= 8 { NumberBit(front, k - 8); }
  }

  // Coefficient i of a loaded block is bit i of the string: the top bit of byte 0 comes first
  lemma LoadedBit(s: seq<byte>, i: nat)
    requires |s| == 16 && i < 128
    ensures BlockBit(BlockOf(s), i) == Bit(s[i / 8], 7 - i % 8)
  {
    if i < 64 { NumberBit(s[..8], 63 - i); } else { NumberBit(s[8..], 127 - i); }
  }

  lemma AppendByte(x: uint64, b: byte)
    requires x < Pow2(56)
    ensures Or64(ShiftLeft(x, 8), b) == 256 * x + b
  {
    Widths();
    assert Pow2(8) == 256;
    assert ShiftLeft(x, 8) == x * 256;
    OrConcat(x, b, 8);
  }

  method LoadBe128(p: seq<byte>) returns (x: Block128)
    requires |p| == 16
    ensures x == BlockOf(p)
  {
    hide Number, Or64, ShiftLeft;
    x := Block128(0, 0);
    NumberEmpty();
    for i := 0 to 8
      invariant x.hi == Number(p[..i]) && x.lo == 0
    {
      LoadStep(p[..i], p[i]);
      assert p[..i + 1] == p[..i] + [p[i]];
      x := x.(hi := Or64(ShiftLeft(x.hi, 8), p[i]));
    }
    for i := 8 to 16
      invariant x.hi == Number(p[..8]) && x.lo == Number(p[8..i])
    {
      LoadStep(p[8..i], p[i]);
      assert p[8..i + 1] == p[8..i] + [p[i]];
      x := x.(lo := Or64(ShiftLeft(x.lo, 8), p[i]));
    }
    assert p[8..16] == p[8..];
  }

  lemma NumberEmpty()
    ensures Number([]) == 0
  {}

  lemma LoadStep(s: seq<byte>, b: byte)
    requires |s| < 8
    ensures Number(s) < TWO64
    ensures Or64(ShiftLeft(Number(s), 8), b) == Number(s + [b])
  {
    Widths();
    Pow2Monotone(8 * |s|, 56);
    AppendByte(Number(s), b);
    assert (s + [b])[..|s|] == s;
  }

  method StoreBe128(p: array<byte>, b: Block128)
    requires p.Length == 16
    modifies p
    ensures p[..] == BytesOf(b)
  {
    hide Digits, ShiftRight;
    var x := b;
    for i := 8 downto 0
      invariant Digits(x.hi, i) + p[i..8] == Digits(b.hi, 8) && x.lo == b.lo
    {
      LowDigit(x.hi, i + 1);
      p[i] := x.hi % 256;
      x := x.(hi := ShiftRight(x.hi, 8));
    }
    for i := 16 downto 8
      invariant p[..8] == Digits(b.hi, 8)
      invariant Digits(x.lo, i - 8) + p[i..16] == Digits(b.lo, 8)
    {
      LowDigit(x.lo, i - 7);
      p[i] := x.lo % 256;
      x := x.(lo := ShiftRight(x.lo, 8));
    }
    assert p[..] == p[..8] + p[8..16];
  }

  lemma LowDigit(v: uint64, n: nat)
    requires n > 0
    ensures Digits(v, n) == Digits(ShiftRight(v, 8), n - 1) + [v % 256]
  {}
}
