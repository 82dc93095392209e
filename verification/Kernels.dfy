/** The kernels as functions: what each launch leaves in every cell of device memory. */
module Kernels {
  import opened Words
  import opened Blocks
  import opened Bytes
  import opened GhashTree
  import opened Gcm

  // Device memory: three flat address spaces; a pointer is an index
  datatype Memory = Memory(bytes: seq<byte>, flags: seq<int>, nodes: seq<GHashNode>)

  datatype Option<T> = None | Some(value: T)

  datatype Launch =
    | Header(frame: nat, iv: Iv)
    | Ctr(src: nat, dst: nat, len: nat, ivAt: nat, gate: Option<nat>)
    | Segment(text: nat, len: nat, output: nat)
    | Combine(input: nat, output: nat, count: nat)
    | Finalize(frame: nat, len: nat, root: nat)
    | Verify(frame: nat, len: nat, root: nat, flag: nat)

  predicate Apart(a: nat, m: nat, b: nat, n: nat) { a + m <= b || b + n <= a }

  // Pointers in bounds, and no launch reads what it writes
  predicate Fits(l: Launch, m: Memory) {
    match l
    case Header(frame, iv) => frame + HEADER_LEN <= |m.bytes|
    case Ctr(src, dst, len, ivAt, gate) =>
      && src + len <= |m.bytes| && dst + len <= |m.bytes| && ivAt + 12 <= |m.bytes|
      && Apart(src, len, dst, len) && Apart(ivAt, 12, dst, len)
      && (gate.Some? ==> gate.value < |m.flags|)
    case Segment(text, len, output) =>
      text + len <= |m.bytes| && output + Segs(len) <= |m.nodes| && len + OVERHEAD < TWO64
    case Combine(input, output, count) =>
      && input + count <= |m.nodes| && output + CeilDiv(count, 2) <= |m.nodes|
      && Apart(input, count, output, CeilDiv(count, 2))
    case Finalize(frame, len, root) => frame + len + OVERHEAD <= |m.bytes| && root < |m.nodes|
    case Verify(frame, len, root, flag) => frame + len + OVERHEAD <= |m.bytes| && root < |m.nodes| && flag < |m.flags|
  }

  // ---- Lengths ----

  function CipherBlocks(len: nat): nat { CeilDiv(len, 16) }
  function TermCount(len: nat): nat { CipherBlocks(len) + 1 }

  // required_nodes
  function Segs(len: nat): nat { CeilDiv(TermCount(len), SEGMENT_BLOCKS) }

  // ---- CTR ----

  function StreamByte(e: Cipher, iv: Iv, i: nat): byte { e(CounterBlock(iv, i / 16 + 2))[i % 16] }

  // The counter thread t of the CTR kernel works with
  function ThreadCounter(t: nat): nat { t + 2 }

  // Byte i of the destination: zero when gated shut, untouched when the counter would wrap
  function CtrByte(e: Cipher, iv: Iv, shut: bool, source: byte, i: nat, before: byte): byte {
    if shut then 0
    else if i / 16 + 2 > 0xffff_ffff then before
    else XorByte(source, StreamByte(e, iv, i))
  }

  // ---- GHASH terms ----

  // load_ciphertext_term
  function Term(c: seq<byte>, i: nat): Block128
    requires i <= CipherBlocks(|c|)
  {
    if i == CipherBlocks(|c|) then Block128(0, 8 * |c| % TWO64)
    else BlockOf(PaddedBlock(c, i))
  }

  function PaddedBlock(c: seq<byte>, i: nat): (s: seq<byte>)
    ensures |s| == 16
  {
    seq(16, j requires 0 <= j < 16 => if 16 * i + j < |c| then c[16 * i + j] else 0)
  }

  function Terms(c: seq<byte>): (xs: seq<Block128>)
    ensures |xs| == TermCount(|c|)
  {
    seq(TermCount(|c|), i requires 0 <= i < TermCount(|c|) => Term(c, i))
  }

  lemma {:induction false} BlocksOfAt(s: seq<byte>, i: nat)
    requires |s| % 16 == 0 && 16 * i < |s|
    ensures BlocksOf(s)[i] == BlockOf(s[16 * i..16 * i + 16])
  {
    if i > 0 {
      BlocksOfAt(s[16..], i - 1);
      assert s[16..][16 * (i - 1)..16 * (i - 1) + 16] == s[16 * i..16 * i + 16];
    }
  }

  lemma {:induction false} NumberDigitsWraps(v: nat, n: nat)
    ensures Number(Digits(v, n)) == v % Pow2(8 * n)
  {
    if n > 0 {
      Pow2Add(8 * (n - 1), 8);
      assert Pow2(8) == 256;
      NumberDigitsWraps(v / 256, n - 1);
      assert Digits(v, n)[..n - 1] == Digits(v / 256, n - 1);
      ModSplit(v, Pow2(8 * (n - 1)));
    }
  }

  lemma ModSplit(v: nat, p: nat)
    requires p > 0
    ensures 256 * (v / 256 % p) + v % 256 == v % (p * 256)
  {
    var q, r := v / 256 / p, v / 256 % p;
    assert v / 256 == p * q + r;
    assert v == 256 * (p * q + r) + v % 256;
    assert 256 * (p * q) == q * (p * 256);
    assert 256 * r + v % 256 < p * 256;
    DivUnique(v, p * 256, q, 256 * r + v % 256);
  }

  lemma TextBlock(c: seq<byte>, i: nat)
    requires i < CipherBlocks(|c|)
    ensures HashInput(c)[16 * i..16 * i + 16] == PaddedBlock(c, i)
  {}

  lemma LastBlock(c: seq<byte>)
    ensures HashInput(c)[16 * CipherBlocks(|c|)..] == Zeros(8) + Digits(8 * |c|, 8)
  {
    hide PadTo16, Zeros, Digits;
    assert HashInput(c) == PadTo16(c) + (Zeros(8) + Digits(8 * |c|, 8));
  }

  // The terms the segment kernel hashes are the blocks of the string of section 7.1
  lemma TermAt(c: seq<byte>, i: nat)
    requires i < TermCount(|c|)
    ensures BlocksOf(HashInput(c))[i] == Term(c, i)
  {
    hide BlocksOf, HashInput, BlockOf, PaddedBlock, Digits, Zeros;
    BlocksOfAt(HashInput(c), i);
    if i == CipherBlocks(|c|) {
      LengthBlock(8 * |c|);
      LastBlock(c);
      assert HashInput(c)[16 * i..16 * i + 16] == HashInput(c)[16 * i..];
    } else {
      TextBlock(c, i);
    }
  }

  lemma LengthBlock(bits: nat)
    ensures BlockOf(Zeros(8) + Digits(bits, 8)) == Block128(0, bits % TWO64)
  {
    Widths();
    NumberZeros(8);
    NumberDigitsWraps(bits, 8);
    var s := Zeros(8) + Digits(bits, 8);
    assert s[..8] == Zeros(8) && s[8..] == Digits(bits, 8);
  }

  lemma {:induction false} NumberZeros(n: nat)
    ensures Number(Zeros(n)) == 0
  {
    if n > 0 { NumberZeros(n - 1); assert Zeros(n)[..n - 1] == Zeros(n - 1); }
  }

  lemma TermsAreHashInput(c: seq<byte>)
    ensures Terms(c) == BlocksOf(HashInput(c))
  {
    forall i | 0 <= i < TermCount(|c|) ensures Terms(c)[i] == BlocksOf(HashInput(c))[i] { TermAt(c, i); }
  }

  // ---- Counter mode ----

  lemma CounterNumber(iv: Iv, c: nat)
    requires c < TWO32
    ensures Number(CounterBlock(iv, c)[12..]) == c
  {
    hide Number, Digits;
    assert Pow2(8) == 256;
    Pow2Add(8, 8);
    Pow2Add(16, 16);
    NumberDigits(c, 4);
    assert CounterBlock(iv, c)[12..] == Digits(c, 4);
  }

  lemma NextCounter(iv: Iv, c: nat)
    requires c < TWO32
    ensures Inc32(CounterBlock(iv, c)) == CounterBlock(iv, (c + 1) % TWO32)
  {
    hide Number, Digits;
    CounterNumber(iv, c);
  }

  lemma GctrHead(e: Cipher, counter: BlockBytes, x: seq<byte>, i: nat)
    requires i < |x| && i < 16
    ensures Gctr(e, counter, x)[i] == XorByte(x[i], e(counter)[i])
  {}

  lemma GctrTail(e: Cipher, counter: BlockBytes, x: seq<byte>, i: nat)
    requires 16 <= i < |x|
    ensures Gctr(e, counter, x)[i] == Gctr(e, Inc32(counter), x[16..])[i - 16]
  {}

  // Byte i of GCTR is one XOR with the cipher of counter c + i / 16
  lemma {:induction false} GctrAt(e: Cipher, iv: Iv, c: nat, x: seq<byte>, i: nat)
    requires c < TWO32 && i < |x|
    ensures Gctr(e, CounterBlock(iv, c), x)[i] == XorByte(x[i], e(CounterBlock(iv, (c + i / 16) % TWO32))[i % 16])
    decreases i
  {
    hide Gctr, CounterBlock, Inc32, XorByte;
    if i < 16 {
      GctrHead(e, CounterBlock(iv, c), x, i);
    } else {
      var c' := (c + 1) % TWO32;
      GctrTail(e, CounterBlock(iv, c), x, i);
      NextCounter(iv, c);
      GctrAt(e, iv, c', x[16..], i - 16);
      CounterOffset(c, i);
    }
  }

  lemma CounterOffset(c: nat, i: nat)
    requires i >= 16
    ensures ((c + 1) % TWO32 + (i - 16) / 16) % TWO32 == (c + i / 16) % TWO32
    ensures (i - 16) % 16 == i % 16
  {}

  lemma BlockInRange(n: nat, i: nat)
    requires i < n && CipherBlocks(n) <= MAX_BLOCKS
    ensures i / 16 + 2 < TWO32
  {}

  lemma FirstCounter(iv: Iv)
    ensures Inc32(J0(iv)) == CounterBlock(iv, 2)
  {
    hide Inc32, CounterBlock;
    PlainJ0(iv);
    NextCounter(iv, 1);
  }

  // make_counter_block(iv, 1)
  lemma PlainJ0(iv: Iv)
    ensures CounterBlock(iv, 1) == J0(iv)
  {
    DigitsZero(3);
    assert Digits(1, 4) == Digits(0, 3) + [1];
  }

  lemma {:induction false} DigitsZero(n: nat)
    ensures Digits(0, n) == Zeros(n)
  {
    if n > 0 { DigitsZero(n - 1); }
  }

  lemma CryptAt(e: Cipher, iv: Iv, x: seq<byte>, i: nat)
    requires i < |x|
    ensures Crypt(e, iv, x)[i] == XorByte(x[i], e(CounterBlock(iv, (2 + i / 16) % TWO32))[i % 16])
  {
    hide Gctr, CounterBlock, Inc32, XorByte;
    FirstCounter(iv);
    GctrAt(e, iv, 2, x, i);
  }

  // Within the length bound the counters never wrap, so the kernel's bytes are those of section 7.1
  lemma CtrBytesAreCrypt(e: Cipher, iv: Iv, x: seq<byte>, i: nat, before: byte)
    requires i < |x| && CipherBlocks(|x|) <= MAX_BLOCKS
    ensures Crypt(e, iv, x)[i] == CtrByte(e, iv, false, x[i], i, before)
  {
    hide Crypt, CounterBlock, XorByte;
    CryptAt(e, iv, x, i);
    BlockInRange(|x|, i);
    assert (2 + i / 16) % TWO32 == i / 16 + 2;
  }

  lemma CounterBlocksDiffer(iv: Iv, c: nat, d: nat)
    requires c < d < TWO32
    ensures CounterBlock(iv, c) != CounterBlock(iv, d)
  {
    hide Number, CounterBlock;
    CounterNumber(iv, c);
    CounterNumber(iv, d);
  }

  // Within the length bound no thread meets its early return, no two blocks share a counter block and none
  // uses that of the tag; one block more and some thread returns early
  lemma CounterCoverage(iv: Iv, blocks: nat)
    ensures blocks <= MAX_BLOCKS <==> forall i | 0 <= i < blocks :: ThreadCounter(i) <= 0xffff_ffff
    ensures blocks <= MAX_BLOCKS ==> (
      forall i, j | 0 <= i < j < blocks :: CounterBlock(iv, ThreadCounter(i)) != CounterBlock(iv, ThreadCounter(j)))
    ensures blocks <= MAX_BLOCKS ==> forall i | 0 <= i < blocks :: CounterBlock(iv, ThreadCounter(i)) != J0(iv)
  {
    hide CounterBlock;
    if blocks > MAX_BLOCKS {
      assert ThreadCounter(MAX_BLOCKS) > 0xffff_ffff;
    } else {
      PlainJ0(iv);
      forall i | 0 <= i < blocks ensures CounterBlock(iv, ThreadCounter(i)) != J0(iv) {
        CounterBlocksDiffer(iv, 1, ThreadCounter(i));
      }
      forall i, j | 0 <= i < j < blocks
        ensures CounterBlock(iv, ThreadCounter(i)) != CounterBlock(iv, ThreadCounter(j))
      {
        CounterBlocksDiffer(iv, ThreadCounter(i), ThreadCounter(j));
      }
    }
  }
}
