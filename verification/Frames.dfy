/** Frames in plain bytes: the layout, the hash key, the keystream and the tag, with every constant written out. */
module Frames {
  import opened Words
  import opened Blocks
  import opened Bytes
  import opened GhashTree
  import opened Gcm
  import opened Kernels
  import opened Tampering

  const ZEROS16: BlockBytes := [0, 0, 0, 0, 0, 0, 0, 0, 0, 0, 0, 0, 0, 0, 0, 0]

  // ---- The layout: 1, IV, ciphertext, tag ----

  lemma FrameLayout(e: Cipher, iv: Iv, p: seq<byte>)
    ensures var f, c := SealFrame(e, iv, p), Crypt(e, iv, p);
      |f| == |p| + 29 && f[0] == 1 && f[1..13] == iv && f[13..13 + |p|] == c && f[13 + |p|..] == Tag(e, iv, c)
  {
    hide Crypt, Tag;
  }

  lemma AcceptsLayout(e: Cipher, f: seq<byte>, n: nat)
    requires |f| >= n + 29
    ensures Accepts(e, f, n) <==> f[0] == 1 && f[13 + n..29 + n] == Tag(e, f[1..13], f[13..13 + n])
  {
    hide Tag;
  }

  // ---- The keystream ----

  lemma DivBy256(x: nat, p: nat)
    requires p > 0
    ensures x / 256 / p == x / (p * 256)
  {
    var q, r := x / 256 / p, x / 256 % p;
    assert x / 256 == p * q + r;
    assert x == 256 * (p * q + r) + x % 256;
    assert 256 * (p * q) == q * (p * 256);
    DivUnique(x, p * 256, q, 256 * r + x % 256);
  }

  lemma {:induction false} DigitAt(v: nat, n: nat, k: nat)
    requires k < n
    ensures Digits(v, n)[k] == v / Pow2(8 * (n - 1 - k)) % 256
    decreases n
  {
    if k == n - 1 {
      assert Pow2(0) == 1;
    } else {
      DigitAt(v / 256, n - 1, k);
      assert Pow2(8) == 256;
      Pow2Add(8 * (n - 2 - k), 8);
      DivBy256(v, Pow2(8 * (n - 2 - k)));
    }
  }

  // The counter block of counter k, byte by byte
  function CounterBytes(iv: Iv, k: nat): BlockBytes {
    iv + [k / 0x100_0000 % 0x100, k / 0x1_0000 % 0x100, k / 0x100 % 0x100, k % 0x100]
  }

  lemma CounterBlockBytes(iv: Iv, k: nat)
    ensures CounterBlock(iv, k) == CounterBytes(iv, k)
  {
    hide Digits;
    assert Pow2(0) == 1 && Pow2(8) == 0x100;
    Pow2Add(8, 8);
    Pow2Add(16, 8);
    forall i | 0 <= i < 4 ensures Digits(k, 4)[i] == k / Pow2(8 * (3 - i)) % 256 { DigitAt(k, 4, i); }
  }

  // Byte i of a text goes with the cipher of counter i / 16 + 2
  lemma CryptByte(e: Cipher, iv: Iv, x: seq<byte>, i: nat)
    requires i < |x| && i / 16 + 2 <= 0xffff_ffff
    ensures Crypt(e, iv, x)[i] == XorByte(x[i], e(CounterBytes(iv, i / 16 + 2))[i % 16])
  {
    hide Crypt, CounterBlock, CounterBytes, XorByte;
    CryptAt(e, iv, x, i);
    CounterBlockBytes(iv, i / 16 + 2);
    assert (2 + i / 16) % TWO32 == i / 16 + 2;
  }

  // ---- The hash key ----

  // Coefficient i of the hash key is a bit of the cipher of the zero block
  lemma HashKeyBit(e: Cipher, i: nat)
    requires i < 128
    ensures BlockBit(HashKey(e), i) == Bit(e(ZEROS16)[i / 8], 7 - i % 8)
  {
    assert Zeros(16) == ZEROS16;
    LoadedBit(e(ZEROS16), i);
  }

  lemma HashKeyZero(e: Cipher)
    ensures HashKey(e) == ZERO <==> e(ZEROS16) == ZEROS16
  {
    hide BlockOf, BytesOf;
    assert Zeros(16) == ZEROS16;
    BytesOfBlockOf(e(ZEROS16));
    BytesOfBlockOf(ZEROS16);
    ZeroBlock();
  }

  lemma ZeroBlock()
    ensures BlockOf(ZEROS16) == ZERO
  {
    NumberZeros(8);
    assert ZEROS16[..8] == Zeros(8) && ZEROS16[8..] == Zeros(8);
  }

  // ---- The tag ----

  // Section 6.4: X_1 * H^m + X_2 * H^(m-1) + ... + X_m * H
  function Sum(h: Block128, xs: seq<Block128>): Block128 {
    if xs == [] then ZERO else Add(Mul(xs[0], Pow(h, |xs|)), Sum(h, xs[1..]))
  }

  lemma {:induction false} GhashIsSum(h: Block128, xs: seq<Block128>)
    ensures Ghash(h, xs) == Sum(h, xs)
  {
    hide Mul, Add;
    if xs != [] {
      var x, rest := xs[0], xs[1..];
      assert xs == [x] + rest;
      GhashAppend(h, [x], rest);
      GhashIsSum(h, rest);
      GhashOne(h, x);
      PowStep(x, h, |rest|);
    }
  }

  lemma GhashOne(h: Block128, x: Block128)
    ensures Ghash(h, [x]) == Mul(x, h)
  {
    hide Mul, Add;
    AddLaws(ZERO, x, x);
    AddLaws(x, ZERO, x);
    assert [x][..0] == [];
  }

  lemma PowStep(x: Block128, h: Block128, n: nat)
    ensures Mul(Mul(x, h), Pow(h, n)) == Mul(x, Pow(h, n + 1))
  {
    hide Mul;
    MulAssociates(x, h, Pow(h, n));
    MulCommutes(h, Pow(h, n));
  }

  // XOR of the bytes of s at p, p + 16, p + 32 and so on
  function Column(s: seq<byte>, p: nat): byte
    decreases |s| - p
  {
    if p >= |s| then 0 else XorByte(s[p], Column(s, p + 16))
  }

  // Byte j of the length block for n bytes: zero, or one of the eight bytes of the length in bits
  function LengthByte(n: nat, j: nat): byte
    requires j < 16
  {
    if j < 8 then 0 else 8 * n / Pow2(8 * (15 - j)) % 256
  }

  // Under a key whose hash key is 1 the tag is the plain XOR of the ciphertext blocks, the length block and the
  // cipher of the first counter block
  lemma UnitTag(e: Cipher, iv: Iv, c: seq<byte>, j: nat)
    requires e(ZEROS16) == [0x80, 0, 0, 0, 0, 0, 0, 0, 0, 0, 0, 0, 0, 0, 0, 0] && j < 16
    ensures Tag(e, iv, c)[j] == XorByte(e(iv + [0, 0, 0, 1])[j], XorByte(Column(c, j), LengthByte(|c|, j)))
  {
    hide HashKey, Ghash, BlocksOf, HashInput, BytesOf, XorByte, Column, LengthByte;
    UnitKey(e);
    var s := HashInput(c);
    GhashIsSum(ONE, BlocksOf(s));
    SumBytes(s, j);
    HashInputColumn(c, j);
  }

  lemma UnitKey(e: Cipher)
    requires e(ZEROS16) == [0x80, 0, 0, 0, 0, 0, 0, 0, 0, 0, 0, 0, 0, 0, 0, 0]
    ensures HashKey(e) == ONE
  {
    hide Number, Digits;
    var b: BlockBytes := [0x80, 0, 0, 0, 0, 0, 0, 0, 0, 0, 0, 0, 0, 0, 0, 0];
    assert Zeros(16) == ZEROS16;
    NumberZeros(8);
    assert b[8..] == Zeros(8);
    TopByte();
    assert b[..8] == [0x80, 0, 0, 0, 0, 0, 0, 0];
  }

  lemma TopByte()
    ensures Number([0x80, 0, 0, 0, 0, 0, 0, 0]) == TWO63
  {
    NumberOne(0x80);
    NumberAppend([0x80], 0);
    assert [0x80] + [0] == [0x80, 0];
    NumberAppend([0x80, 0], 0);
    assert [0x80, 0] + [0] == [0x80, 0, 0];
    NumberAppend([0x80, 0, 0], 0);
    assert [0x80, 0, 0] + [0] == [0x80, 0, 0, 0];
    NumberAppend([0x80, 0, 0, 0], 0);
    assert [0x80, 0, 0, 0] + [0] == [0x80, 0, 0, 0, 0];
    NumberAppend([0x80, 0, 0, 0, 0], 0);
    assert [0x80, 0, 0, 0, 0] + [0] == [0x80, 0, 0, 0, 0, 0];
    NumberAppend([0x80, 0, 0, 0, 0, 0], 0);
    assert [0x80, 0, 0, 0, 0, 0] + [0] == [0x80, 0, 0, 0, 0, 0, 0];
    NumberAppend([0x80, 0, 0, 0, 0, 0, 0], 0);
    assert [0x80, 0, 0, 0, 0, 0, 0] + [0] == [0x80, 0, 0, 0, 0, 0, 0, 0];
  }

  lemma NumberOne(b: byte)
    ensures Number([b]) == b
  {
    NumberEmpty();
    NumberAppend([], b);
    assert [] + [b] == [b];
  }

  lemma {:induction false} PowOne(n: nat)
    ensures Pow(ONE, n) == ONE
  {
    hide Mul;
    if n > 0 {
      PowOne(n - 1);
      MulOne(ONE);
    }
  }

  lemma BytesOfAdd(a: Block128, b: Block128)
    ensures BytesOf(Add(a, b)) == XorBytes(BytesOf(a), BytesOf(b))
  {
    hide Add, BytesOf, BlockOf, XorBytes;
    BlockOfXor(BytesOf(a), BytesOf(b));
    BlockOfBytesOf(a);
    BlockOfBytesOf(b);
    BytesOfBlockOf(XorBytes(BytesOf(a), BytesOf(b)));
  }

  // With H = 1 the sum of the blocks of s is its XOR, byte by byte
  lemma {:induction false} SumBytes(s: seq<byte>, j: nat)
    requires |s| % 16 == 0 && j < 16
    ensures BytesOf(Sum(ONE, BlocksOf(s)))[j] == Column(s, j)
  {
    hide Mul, Add, BlockOf, BytesOf, XorByte;
    if s == [] {
      ZeroBytes();
    } else {
      var x, rest := BlockOf(s[..16]), BlocksOf(s[16..]);
      assert BlocksOf(s)[1..] == rest;
      SumBytes(s[16..], j);
      PowOne(|BlocksOf(s)|);
      MulOne(x);
      BytesOfAdd(x, Sum(ONE, rest));
      BytesOfBlockOf(s[..16]);
      ColumnShift(s, j);
    }
  }

  lemma ZeroBytes()
    ensures BytesOf(ZERO) == ZEROS16
  {
    DigitsZero(8);
    assert Zeros(8) + Zeros(8) == ZEROS16;
  }

  lemma {:induction false} ColumnShift(s: seq<byte>, p: nat)
    requires |s| >= 16
    ensures Column(s, p + 16) == Column(s[16..], p)
    decreases |s| - p
  {
    hide XorByte;
    if p + 16 < |s| { ColumnShift(s, p + 16); }
  }

  lemma XorByteAssociates(a: byte, b: byte, c: byte)
    ensures XorByte(XorByte(a, b), c) == XorByte(a, XorByte(b, c))
  {
    hide XorByte;
    var l, r := XorByte(XorByte(a, b), c), XorByte(a, XorByte(b, c));
    forall k | 0 <= k < 8 ensures Bit(l, k) == Bit(r, k) {
      XorByteBit(a, b, k);
      XorByteBit(XorByte(a, b), c, k);
      XorByteBit(b, c, k);
      XorByteBit(a, XorByte(b, c), k);
    }
    assert Pow2(8) == 256;
    SameBits(l, r, 8);
  }

  lemma XorByteZero(a: byte)
    ensures XorByte(0, a) == a == XorByte(a, 0)
  {
    hide XorByte;
    assert Pow2(8) == 256;
    forall k | 0 <= k < 8 ensures Bit(XorByte(0, a), k) == Bit(a, k) == Bit(XorByte(a, 0), k) {
      XorByteBit(0, a, k);
      XorByteBit(a, 0, k);
      ZeroBit(k);
    }
    SameBits(XorByte(0, a), a, 8);
    SameBits(XorByte(a, 0), a, 8);
  }

  // What a padded text and a last block hold
  lemma PaddedAt(c: seq<byte>, last: seq<byte>, p: nat)
    requires |last| == 16 && p < |PadTo16(c)| + 16
    ensures |PadTo16(c) + last| == |PadTo16(c)| + 16 && |c| <= |PadTo16(c)|
    ensures (PadTo16(c) + last)[p] == if p < |c| then c[p] else if p < |PadTo16(c)| then 0 else last[p % 16]
  {}

  // Padding adds nothing to a column, and the last block its one byte
  lemma {:induction false} PaddedColumn(c: seq<byte>, last: seq<byte>, p: nat)
    requires |last| == 16 && p < |PadTo16(c)| + 16
    ensures Column(PadTo16(c) + last, p) == XorByte(Column(c, p), last[p % 16])
    decreases |PadTo16(c)| + 16 - p
  {
    hide XorByte, PadTo16;
    PaddedAt(c, last, p);
    if p + 16 < |PadTo16(c)| + 16 {
      PaddedColumn(c, last, p + 16);
      if p < |c| {
        XorByteAssociates(c[p], Column(c, p + 16), last[p % 16]);
      } else {
        XorByteZero(XorByte(0, last[p % 16]));
      }
    } else {
      XorByteZero(last[p % 16]);
    }
  }

  lemma LastBytes(c: seq<byte>, j: nat)
    requires j < 16
    ensures (Zeros(8) + Digits(8 * |c|, 8))[j] == LengthByte(|c|, j)
  {
    hide Digits;
    if j >= 8 { DigitAt(8 * |c|, 8, j - 8); }
  }

  lemma HashInputColumn(c: seq<byte>, j: nat)
    requires j < 16
    ensures Column(HashInput(c), j) == XorByte(Column(c, j), LengthByte(|c|, j))
  {
    hide XorByte, Column, Digits, PadTo16, Zeros, LengthByte;
    var last := Zeros(8) + Digits(8 * |c|, 8);
    assert HashInput(c) == PadTo16(c) + last;
    PaddedColumn(c, last, j);
    LastBytes(c, j);
  }
}
