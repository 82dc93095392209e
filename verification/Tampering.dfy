/** How the verify kernel answers to a changed frame: a changed tag never passes, a changed ciphertext passes exactly
    when the difference hashes to zero. */
module Tampering {
  import opened Words
  import opened Blocks
  import opened Bytes
  import opened GhashTree
  import opened Gcm

  // ---- GHASH is linear in its input ----

  function XorBlocks(xs: seq<Block128>, ys: seq<Block128>): (zs: seq<Block128>)
    requires |xs| == |ys|
    ensures |zs| == |xs|
  {
    seq(|xs|, i requires 0 <= i < |xs| => Add(xs[i], ys[i]))
  }

  lemma {:induction false} GhashAdditive(h: Block128, xs: seq<Block128>, ys: seq<Block128>)
    requires |xs| == |ys|
    ensures Ghash(h, XorBlocks(xs, ys)) == Add(Ghash(h, xs), Ghash(h, ys))
  {
    hide Add, Mul;
    if xs == [] {
      AddLaws(ZERO, ZERO, ZERO);
    } else {
      var n := |xs| - 1;
      GhashAdditive(h, xs[..n], ys[..n]);
      assert XorBlocks(xs, ys)[..n] == XorBlocks(xs[..n], ys[..n]);
      StepAdditive(Ghash(h, xs[..n]), xs[n], Ghash(h, ys[..n]), ys[n], h);
    }
  }

  lemma StepAdditive(a: Block128, x: Block128, b: Block128, y: Block128, h: Block128)
    ensures Mul(Add(Add(a, b), Add(x, y)), h) == Add(Mul(Add(a, x), h), Mul(Add(b, y), h))
  {
    hide Add, Mul;
    SwapMiddle(a, b, x, y);
    MulDistributes(Add(a, x), Add(b, y), h);
  }

  lemma SwapMiddle(a: Block128, b: Block128, x: Block128, y: Block128)
    ensures Add(Add(a, b), Add(x, y)) == Add(Add(a, x), Add(b, y))
  {
    hide Add;
    AddLaws(a, b, Add(x, y));
    AddLaws(b, x, y);
    AddLaws(x, b, y);
    AddLaws(a, x, Add(b, y));
  }

  lemma AddIsZero(a: Block128, b: Block128)
    ensures Add(a, b) == ZERO <==> a == b
  {
    hide Add;
    AddLaws(a, b, b);
    AddLaws(a, a, b);
    AddLaws(b, ZERO, ZERO);
    AddLaws(b, b, b);
  }

  // ---- Bytes, blocks and strings ----

  lemma NumberXor(s: seq<byte>, t: seq<byte>)
    requires |s| == |t|
    ensures Number(XorBytes(s, t)) == Xor(Number(s), Number(t))
  {
    hide Number, Xor, XorByte;
    var n, z := 8 * |s|, XorBytes(s, t);
    XorBound(Number(s), Number(t), n);
    forall k | 0 <= k < n ensures Bit(Number(z), k) == Bit(Xor(Number(s), Number(t)), k) {
      NumberBit(s, k);
      NumberBit(t, k);
      NumberBit(z, k);
      XorBit(Number(s), Number(t), k);
      XorByteBit(s[|s| - 1 - k / 8], t[|s| - 1 - k / 8], k % 8);
    }
    SameBits(Number(z), Xor(Number(s), Number(t)), n);
  }

  lemma XorByteBit(a: byte, b: byte, k: nat)
    ensures Bit(XorByte(a, b), k) == (Bit(a, k) != Bit(b, k))
  {
    XorBit(a, b, k);
  }

  lemma BlockOfXor(s: seq<byte>, t: seq<byte>)
    requires |s| == |t| == 16
    ensures BlockOf(XorBytes(s, t)) == Add(BlockOf(s), BlockOf(t))
  {
    hide Number, Xor, XorByte;
    var z := XorBytes(s, t);
    NumberXor(s[..8], t[..8]);
    NumberXor(s[8..], t[8..]);
    assert z[..8] == XorBytes(s[..8], t[..8]) && z[8..] == XorBytes(s[8..], t[8..]);
  }

  lemma {:induction false} BlocksOfXor(s: seq<byte>, t: seq<byte>)
    requires |s| == |t| && |s| % 16 == 0
    ensures BlocksOf(XorBytes(s, t)) == XorBlocks(BlocksOf(s), BlocksOf(t))
  {
    hide BlockOf, XorByte, Add;
    if s != [] {
      var z := XorBytes(s, t);
      assert z[..16] == XorBytes(s[..16], t[..16]) && z[16..] == XorBytes(s[16..], t[16..]);
      BlockOfXor(s[..16], t[..16]);
      BlocksOfXor(s[16..], t[16..]);
    }
  }

  // The blocks of the difference of two ciphertexts of one length, zero-padded, with a zero length block
  function Difference(c: seq<byte>, d: seq<byte>): seq<Block128>
    requires |c| == |d|
  {
    BlocksOf(PadTo16(XorBytes(c, d)) + Zeros(16))
  }

  lemma XorSelf(a: nat)
    ensures Xor(a, a) == 0
  {
    hide Xor;
    XorHalves(a, a);
    if a > 0 { XorSelf(a / 2); }
  }

  lemma DifferenceInput(c: seq<byte>, d: seq<byte>)
    requires |c| == |d|
    ensures XorBytes(HashInput(c), HashInput(d)) == PadTo16(XorBytes(c, d)) + Zeros(16)
  {
    hide Xor, Digits, CeilDiv;
    var x, y := XorBytes(HashInput(c), HashInput(d)), PadTo16(XorBytes(c, d)) + Zeros(16);
    forall i | 0 <= i < |x| ensures x[i] == y[i] {
      if i >= |c| { XorSelf(HashInput(c)[i]); }
    }
  }

  lemma HashDifference(h: Block128, c: seq<byte>, d: seq<byte>)
    requires |c| == |d|
    ensures Ghash(h, Difference(c, d)) == Add(Ghash(h, BlocksOf(HashInput(c))), Ghash(h, BlocksOf(HashInput(d))))
  {
    hide HashInput, BlocksOf, Ghash, Add, PadTo16, XorBytes, Zeros;
    DifferenceInput(c, d);
    SameLength(c, d);
    BlocksOfXor(HashInput(c), HashInput(d));
    GhashAdditive(h, BlocksOf(HashInput(c)), BlocksOf(HashInput(d)));
  }

  lemma SameLength(c: seq<byte>, d: seq<byte>)
    requires |c| == |d|
    ensures |HashInput(c)| == |HashInput(d)| && |HashInput(c)| % 16 == 0
  {}

  // ---- Changed frames ----

  // The tag field of a frame for n bytes
  function TagOf(f: seq<byte>, n: nat): BlockBytes
    requires |f| >= n + OVERHEAD
  {
    f[13 + n..n + OVERHEAD]
  }

  // With another ciphertext under the accepted version, IV and tag, a frame is accepted if and only if GHASH of the
  // difference is zero
  lemma TamperedBody(e: Cipher, f: seq<byte>, g: seq<byte>, n: nat)
    requires |f| >= n + OVERHEAD && |g| >= n + OVERHEAD && Accepts(e, f, n)
    requires g[0] == f[0] && FrameIv(g) == FrameIv(f) && TagOf(g, n) == TagOf(f, n)
    ensures Accepts(e, g, n) <==> Ghash(HashKey(e), Difference(FrameBody(f, n), FrameBody(g, n))) == ZERO
  {
    hide HashInput, BlocksOf, Ghash, Mask, HashKey, Difference;
    var h, iv, c, d := HashKey(e), FrameIv(f), FrameBody(f, n), FrameBody(g, n);
    var s, t := Ghash(h, BlocksOf(HashInput(c))), Ghash(h, BlocksOf(HashInput(d)));
    HashDifference(h, c, d);
    AddIsZero(s, t);
    if Mask(e, iv, s) == Mask(e, iv, t) { MaskInjective(e, iv, s, t); }
  }

  // Another tag behind the accepted IV and ciphertext is never accepted, nor is another version
  lemma TamperedTag(e: Cipher, f: seq<byte>, g: seq<byte>, n: nat)
    requires |f| >= n + OVERHEAD && |g| >= n + OVERHEAD && Accepts(e, f, n)
    requires FrameIv(g) == FrameIv(f) && FrameBody(g, n) == FrameBody(f, n)
    ensures Accepts(e, g, n) <==> g[0] == f[0] && TagOf(g, n) == TagOf(f, n)
  {
    hide Tag;
  }

  // Another IV under the accepted version, ciphertext and tag passes if and only if the cipher does not tell the two
  // first counter blocks apart
  lemma TamperedIv(e: Cipher, f: seq<byte>, g: seq<byte>, n: nat)
    requires |f| >= n + OVERHEAD && |g| >= n + OVERHEAD && Accepts(e, f, n)
    requires g[0] == f[0] && FrameBody(g, n) == FrameBody(f, n) && TagOf(g, n) == TagOf(f, n)
    ensures Accepts(e, g, n) <==> e(J0(FrameIv(g))) == e(J0(FrameIv(f)))
  {
    hide HashInput, BlocksOf, Ghash, HashKey, J0, XorBytes, BytesOf;
    var s := BytesOf(Ghash(HashKey(e), BlocksOf(HashInput(FrameBody(f, n)))));
    XorBytesTwice(e(J0(FrameIv(f))), s);
    XorBytesTwice(e(J0(FrameIv(g))), s);
  }
}
