/** AES-GCM with a 96-bit IV and no additional data: NIST SP 800-38D over an arbitrary block cipher. */
module Gcm {
  import opened Words
  import opened Blocks
  import opened Bytes
  import G = GhashTree

  type BlockBytes = s: seq<byte> | |s| == 16 witness seq(16, _ => 0)
  type Iv = s: seq<byte> | |s| == 12 witness seq(12, _ => 0)

  // The forward cipher under one key
  type Cipher = BlockBytes -> BlockBytes

  const TWO32 := 0x1_0000_0000

  function XorByte(a: byte, b: byte): byte { XorBound(a, b, 8); assert Pow2(8) == 256; Xor(a, b) }

  function XorBytes(a: seq<byte>, b: seq<byte>): (c: seq<byte>)
    requires |a| == |b|
    ensures |c| == |a|
  {
    seq(|a|, i requires 0 <= i < |a| => XorByte(a[i], b[i]))
  }

  function Zeros(n: nat): (z: seq<byte>)
    ensures |z| == n
  {
    seq(n, _ => 0)
  }

  // ---- Counter blocks: sections 6.2 and 6.5 ----

  function CounterBlock(iv: Iv, counter: nat): BlockBytes { iv + Digits(counter, 4) }

  function Inc32(block: BlockBytes): BlockBytes { block[..12] + Digits((Number(block[12..]) + 1) % TWO32, 4) }

  function Gctr(e: Cipher, counter: BlockBytes, x: seq<byte>): (y: seq<byte>)
    ensures |y| == |x|
    decreases |x|
  {
    if |x| <= 16 then XorBytes(x, e(counter)[..|x|])
    else XorBytes(x[..16], e(counter)) + Gctr(e, Inc32(counter), x[16..])
  }

  // ---- GHASH input: section 7.1, steps 4 and 5, with A empty ----

  function PadTo16(c: seq<byte>): (p: seq<byte>)
    ensures |p| == 16 * G.CeilDiv(|c|, 16)
  {
    c + Zeros(16 * G.CeilDiv(|c|, 16) - |c|)
  }

  function HashInput(c: seq<byte>): (s: seq<byte>)
    ensures |s| == 16 * (G.CeilDiv(|c|, 16) + 1)
  {
    PadTo16(c) + Zeros(8) + Digits(8 * |c|, 8)
  }

  function BlocksOf(s: seq<byte>): (xs: seq<Block128>)
    requires |s| % 16 == 0
    ensures |xs| == |s| / 16
  {
    if s == [] then [] else [BlockOf(s[..16])] + BlocksOf(s[16..])
  }

  // ---- Authenticated encryption ----

  function HashKey(e: Cipher): Block128 { BlockOf(e(Zeros(16))) }

  function J0(iv: Iv): BlockBytes { iv + [0, 0, 0, 1] }

  function Mask(e: Cipher, iv: Iv, s: Block128): BlockBytes { XorBytes(e(J0(iv)), BytesOf(s)) }

  function Tag(e: Cipher, iv: Iv, c: seq<byte>): BlockBytes {
    Mask(e, iv, G.Ghash(HashKey(e), BlocksOf(HashInput(c))))
  }

  // GCTR from inc32(J0): encryption and decryption alike
  function Crypt(e: Cipher, iv: Iv, x: seq<byte>): (y: seq<byte>)
    ensures |y| == |x|
  {
    Gctr(e, Inc32(J0(iv)), x)
  }

  // ---- The frame [version | IV | ciphertext | tag] ----

  const VERSION: byte := 1
  const HEADER_LEN := 13
  const OVERHEAD := 29

  // section 7.1 allows len(P) <= 2^39 - 256 bits
  const MAX_BLOCKS := 0xffff_fffe

  function SealFrame(e: Cipher, iv: Iv, p: seq<byte>): (f: seq<byte>)
    ensures |f| == |p| + OVERHEAD
  {
    var c := Crypt(e, iv, p);
    [VERSION] + iv + c + Tag(e, iv, c)
  }

  function FrameIv(f: seq<byte>): Iv
    requires |f| >= OVERHEAD
  {
    f[1..13]
  }

  function FrameBody(f: seq<byte>, n: nat): seq<byte>
    requires |f| >= n + OVERHEAD
  {
    f[13..13 + n]
  }

  // The verdict of section 7.2 on a frame for n bytes of plaintext, with the version byte
  predicate Accepts(e: Cipher, f: seq<byte>, n: nat)
    requires |f| >= n + OVERHEAD
  {
    f[0] == VERSION && f[13 + n..n + OVERHEAD] == Tag(e, FrameIv(f), FrameBody(f, n))
  }

  function Plaintext(e: Cipher, f: seq<byte>, n: nat): (p: seq<byte>)
    requires |f| >= n + OVERHEAD
    ensures |p| == n
  {
    Crypt(e, FrameIv(f), FrameBody(f, n))
  }

  // ---- Laws ----

  lemma {:induction false} XorTwice(a: nat, b: nat)
    ensures Xor(Xor(a, b), b) == a
  {
    hide Xor;
    XorHalves(a, b);
    XorHalves(Xor(a, b), b);
    if a != 0 || b != 0 { XorTwice(a / 2, b / 2); }
  }

  lemma XorBytesTwice(x: seq<byte>, k: seq<byte>)
    requires |x| == |k|
    ensures XorBytes(XorBytes(x, k), k) == x
  {
    forall i | 0 <= i < |x| ensures Xor(Xor(x[i], k[i]), k[i]) == x[i] { XorTwice(x[i], k[i]); }
  }

  lemma {:induction false} GctrTwice(e: Cipher, counter: BlockBytes, x: seq<byte>)
    ensures Gctr(e, counter, Gctr(e, counter, x)) == x
    decreases |x|
  {
    hide XorBytes, Inc32;
    var y := Gctr(e, counter, x);
    if |x| <= 16 {
      XorBytesTwice(x, e(counter)[..|x|]);
    } else {
      XorBytesTwice(x[..16], e(counter));
      GctrTwice(e, Inc32(counter), x[16..]);
      assert y[16..] == Gctr(e, Inc32(counter), x[16..]);
      assert y[..16] == XorBytes(x[..16], e(counter));
      assert x == x[..16] + x[16..];
    }
  }

  lemma CryptTwice(e: Cipher, iv: Iv, x: seq<byte>)
    ensures Crypt(e, iv, Crypt(e, iv, x)) == x
  {
    GctrTwice(e, Inc32(J0(iv)), x);
  }

  // Open after seal, with any padding behind the frame
  lemma RoundTrip(e: Cipher, iv: Iv, p: seq<byte>, padding: seq<byte>)
    ensures Accepts(e, SealFrame(e, iv, p) + padding, |p|)
    ensures Plaintext(e, SealFrame(e, iv, p) + padding, |p|) == p
  {
    var f := SealFrame(e, iv, p) + padding;
    var c := Crypt(e, iv, p);
    assert FrameIv(f) == iv;
    assert FrameBody(f, |p|) == c;
    assert f[13 + |p|..|p| + OVERHEAD] == Tag(e, iv, c);
    CryptTwice(e, iv, p);
  }

  lemma FrameParts(f: seq<byte>, n: nat)
    requires |f| >= n + OVERHEAD
    ensures f[..n + OVERHEAD] == [f[0]] + FrameIv(f) + FrameBody(f, n) + f[13 + n..n + OVERHEAD]
  {}

  lemma SealOfPlaintext(e: Cipher, f: seq<byte>, n: nat)
    requires |f| >= n + OVERHEAD
    ensures SealFrame(e, FrameIv(f), Plaintext(e, f, n)) ==
            [VERSION] + FrameIv(f) + FrameBody(f, n) + Tag(e, FrameIv(f), FrameBody(f, n))
  {
    CryptTwice(e, FrameIv(f), FrameBody(f, n));
  }

  // A frame is accepted exactly when sealing what it opens to, under its own IV, prints it again
  lemma AcceptedIsCanonical(e: Cipher, f: seq<byte>, n: nat)
    requires |f| >= n + OVERHEAD
    ensures Accepts(e, f, n) <==> f[..n + OVERHEAD] == SealFrame(e, FrameIv(f), Plaintext(e, f, n))
  {
    var iv, c := FrameIv(f), FrameBody(f, n);
    FrameParts(f, n);
    SealOfPlaintext(e, f, n);
    SameFrame(f[0], VERSION, iv + c, f[13 + n..n + OVERHEAD], Tag(e, iv, c));
    assert [f[0]] + iv + c == [f[0]] + (iv + c);
    assert [VERSION] + iv + c == [VERSION] + (iv + c);
  }

  lemma SameFrame(v: byte, w: byte, middle: seq<byte>, s: seq<byte>, t: seq<byte>)
    ensures [v] + middle + s == [w] + middle + t <==> v == w && s == t
  {
    SameTail([v] + middle, s, [w] + middle, t);
    assert ([v] + middle)[0] == v && ([w] + middle)[0] == w;
  }

  lemma SameTail(a: seq<byte>, s: seq<byte>, b: seq<byte>, t: seq<byte>)
    requires |a| == |b|
    ensures a + s == b + t <==> a == b && s == t
  {
    if a + s == b + t {
      assert a == (a + s)[..|a|] && s == (a + s)[|a|..];
    }
  }

  // ---- Tags tell hashes apart ----

  lemma {:induction false} XorCancels(a: nat, b: nat, c: nat)
    requires Xor(a, b) == Xor(a, c)
    ensures b == c
    decreases a + b + c
  {
    hide Xor;
    XorHalves(a, b);
    XorHalves(a, c);
    if a + b + c > 0 { XorCancels(a / 2, b / 2, c / 2); }
  }

  lemma XorBytesCancels(k: seq<byte>, s: seq<byte>, t: seq<byte>)
    requires |k| == |s| == |t| && XorBytes(k, s) == XorBytes(k, t)
    ensures s == t
  {
    forall i | 0 <= i < |k| ensures s[i] == t[i] {
      assert XorBytes(k, s)[i] == XorBytes(k, t)[i];
      XorCancels(k[i], s[i], t[i]);
    }
  }

  lemma MaskInjective(e: Cipher, iv: Iv, s: Block128, t: Block128)
    requires Mask(e, iv, s) == Mask(e, iv, t)
    ensures s == t
  {
    hide XorBytes, BytesOf;
    XorBytesCancels(e(J0(iv)), BytesOf(s), BytesOf(t));
    BlockOfBytesOf(s);
    BlockOfBytesOf(t);
  }
}
