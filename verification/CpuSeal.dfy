/** The CPU backend: chunked OpenSSL streaming, frame layout, and wiping on failure. */
module CpuSeal {
  import opened Bytes
  import opened Frames
  import opened Gcm
  import opened GhashTree
  import opened Kernels

  const INT_MAX := 0x7fff_ffff

  // Longest plaintext GCM takes, in bytes
  const MAX_BYTES := 16 * MAX_BLOCKS

  // GCTR bytes from stream position start on
  function StreamFrom(e: Cipher, iv: Iv, start: nat, x: seq<byte>): (y: seq<byte>)
    ensures |y| == |x|
  {
    seq(|x|, i requires 0 <= i < |x| => XorByte(x[i], StreamByte(e, iv, start + i)))
  }

  lemma StreamAppend(e: Cipher, iv: Iv, start: nat, x: seq<byte>, y: seq<byte>)
    ensures StreamFrom(e, iv, start, x + y) == StreamFrom(e, iv, start, x) + StreamFrom(e, iv, start + |x|, y)
  {}

  // Streaming from position 0 is one-shot GCTR
  lemma StreamIsCrypt(e: Cipher, iv: Iv, x: seq<byte>)
    requires |x| <= MAX_BYTES
    ensures StreamFrom(e, iv, 0, x) == Crypt(e, iv, x)
  {
    hide XorByte, StreamByte, Crypt;
    forall i | 0 <= i < |x| ensures StreamFrom(e, iv, 0, x)[i] == Crypt(e, iv, x)[i] { StreamByteIsCrypt(e, iv, x, i); }
  }

  lemma StreamByteIsCrypt(e: Cipher, iv: Iv, x: seq<byte>, i: nat)
    requires i < |x| <= MAX_BYTES
    ensures XorByte(x[i], StreamByte(e, iv, i)) == Crypt(e, iv, x)[i]
  {
    hide XorByte, StreamByte, Crypt;
    CtrBytesAreCrypt(e, iv, x, i, 0);
    BlockInRange(|x|, i);
  }

  // Calls EVP_*Update needs for n bytes
  function Chunks(n: nat): nat { CeilDiv(n, INT_MAX) }

  // They are the fewest of at most 2^31 - 1 bytes each
  lemma FewestChunks(n: nat, k: nat)
    ensures k == Chunks(n) <==> 0x7fff_ffff * (k as int - 1) < n <= 0x7fff_ffff * k
  {}

  // The OpenSSL contract this file relies on: an AES-128-GCM context that answers its next `healthy` calls
  // with success and fails from then on, where a failing update or final reports an error or a wrong count.
  class Context {
    var healthy: nat
    const short: bool
    var e: Cipher
    var iv: Iv
    var text: seq<byte>           // ciphertext processed so far
    var expected: BlockBytes      // tag installed for decryption

    constructor (healthy: nat, short: bool, e: Cipher)
      ensures this.healthy == healthy && this.short == short
    {
      this.healthy, this.short, this.e, iv, text, expected := healthy, short, e, Zeros(12), [], Zeros(16);
    }

    // EVP_CIPHER_CTX_reset, choosing the algorithm, and setting the IV length
    method Call() returns (ok: bool)
      modifies this`healthy
      ensures ok == (old(healthy) > 0)
      ensures healthy == if ok then old(healthy) - 1 else 0
    {
      ok := healthy > 0;
      if ok { healthy := healthy - 1; }
    }

    // EVP_EncryptInit_ex and EVP_DecryptInit_ex with key and IV
    method Init(e: Cipher, iv: Iv) returns (ok: bool)
      modifies this`healthy, this`e, this`iv, this`text
      ensures ok == (old(healthy) > 0)
      ensures healthy == if ok then old(healthy) - 1 else 0
      ensures ok ==> this.e == e && this.iv == iv && text == []
    {
      ok := Call();
      if ok { this.e, this.iv, text := e, iv, []; }
    }

    // EVP_CTRL_GCM_SET_TAG
    method SetTag(tag: BlockBytes) returns (ok: bool)
      modifies this`healthy, this`expected
      ensures ok == (old(healthy) > 0)
      ensures healthy == if ok then old(healthy) - 1 else 0
      ensures ok ==> expected == tag
    {
      ok := Call();
      if ok { expected := tag; }
    }

    // EVP_EncryptUpdate and EVP_DecryptUpdate from src into dst[at..]; a failing one may leave part of its output
    method Update(encrypt: bool, src: seq<byte>, dst: array<byte>, at: nat) returns (ok: bool, produced: nat)
      requires 0 < |src| && at + |src| <= dst.Length
      modifies this`healthy, this`text, dst
      ensures Framed(old(dst[..]), dst[..], at, |src|)
      ensures ok && produced == |src| <==> old(healthy) > 0 && |old(text)| + |src| <= MAX_BYTES
      ensures !(ok && produced == |src|) ==> ok == short && produced != |src|
      ensures ok && produced == |src| ==> (
        && healthy == old(healthy) - 1
        && dst[at..at + |src|] == StreamFrom(e, iv, |old(text)|, src)
        && text == old(text) + (if encrypt then dst[at..at + |src|] else src))
    {
      hide StreamByte, XorByte;
      var takes := healthy > 0 && |text| + |src| <= MAX_BYTES;
      var n := *;
      if takes || n < 0 || n > |src| { n := |src|; }
      for i := 0 to n
        modifies dst
        invariant dst[..at] == old(dst[..at]) && dst[at + |src|..] == old(dst[at + |src|..])
        invariant dst[at..at + i] == StreamFrom(e, iv, |text|, src[..i])
      {
        dst[at + i] := XorByte(src[i], StreamByte(e, iv, |text| + i));
      }
      ok, produced := takes || short, if takes then |src| else |src| - 1;
      if takes {
        assert src[..n] == src;
        healthy, text := healthy - 1, text + (if encrypt then dst[at..at + |src|] else src);
      }
    }

    // EVP_EncryptFinal_ex
    method EncryptFinal() returns (ok: bool, produced: nat)
      modifies this`healthy
      ensures ok && produced == 0 <==> old(healthy) > 0
      ensures !(ok && produced == 0) ==> ok == short && produced != 0
      ensures healthy == if ok && produced == 0 then old(healthy) - 1 else 0
    {
      var called := Call();
      ok, produced := called || short, if called then 0 else 1;
    }

    // EVP_CTRL_GCM_GET_TAG into dst[at..]
    method GetTag(dst: array<byte>, at: nat) returns (ok: bool)
      requires at + 16 <= dst.Length
      modifies this`healthy, dst
      ensures ok == (old(healthy) > 0)
      ensures healthy == if ok then old(healthy) - 1 else 0
      ensures Framed(old(dst[..]), dst[..], at, 16)
      ensures ok ==> dst[at..at + 16] == Tag(e, iv, text)
    {
      hide Tag;
      ok := Call();
      if ok { CopyTo(dst, at, Tag(e, iv, text)); }
    }

    // EVP_DecryptFinal_ex: the verdict
    method DecryptFinal() returns (ok: bool)
      modifies this`healthy
      ensures ok <==> old(healthy) > 0 && Tag(e, iv, text) == expected
    {
      hide Tag;
      var called := Call();
      ok := called && Tag(e, iv, text) == expected;
    }
  }

  method CopyTo(dst: array<byte>, at: nat, s: seq<byte>)
    requires at + |s| <= dst.Length
    modifies dst
    ensures dst[..] == old(dst[..at]) + s + old(dst[at + |s|..])
  {
    forall i | 0 <= i < |s| { dst[at + i] := s[i]; }
  }

  // encrypt_update_all and decrypt_update_all: the chunks end where one call would
  method UpdateAll(ctx: Context, encrypt: bool, src: seq<byte>, dst: array<byte>, at: nat) returns (rc: int)
    requires at + |src| <= dst.Length && ctx.text == []
    modifies ctx`healthy, ctx`text, dst
    ensures rc == 0 || rc == if encrypt then (if ctx.short then -21 else -20) else if ctx.short then -31 else -30
    ensures rc == 0 <==> old(ctx.healthy) >= Chunks(|src|) && |src| <= MAX_BYTES
    ensures Framed(old(dst[..]), dst[..], at, |src|)
    ensures rc == 0 ==> dst[at..at + |src|] == Crypt(ctx.e, ctx.iv, src)
    ensures rc == 0 ==> ctx.text == if encrypt then Crypt(ctx.e, ctx.iv, src) else src
    ensures rc == 0 ==> ctx.healthy == old(ctx.healthy) - Chunks(|src|)
  {
    hide StreamFrom, Crypt, Chunks, Framed, Progress, Streamed;
    var done := 0;
    ghost var calls, was := 0, dst[..];
    Start(ctx.e, ctx.iv, encrypt, src, was, at);
    while done < |src|
      invariant Progress(|src|, done, calls) && done <= |src|
      invariant done <= MAX_BYTES && ctx.healthy == old(ctx.healthy) - calls
      invariant Framed(was, dst[..], at, |src|)
      invariant |ctx.text| == done && Streamed(ctx.e, ctx.iv, encrypt, src[..done], dst[at..at + done], ctx.text)
    {
      var remain := |src| - done;
      var chunk := if remain < INT_MAX then remain else INT_MAX;
      ghost var before, text := dst[..], ctx.text;
      ChunkCount(|src|, done, chunk, calls);
      var ok, produced := ctx.Update(encrypt, src[done..done + chunk], dst, at + done);
      Extend(was, before, dst[..], at, done, chunk, |src|);
      if !ok { return if encrypt then -20 else -30; }
      if produced != chunk { return if encrypt then -21 else -31; }
      ChunkStep(ctx.e, ctx.iv, encrypt, src, done, chunk, before[at..at + done], text,
                dst[at + done..at + done + chunk]);
      done, calls := done + chunk, calls + 1;
    }
    Finish(ctx.e, ctx.iv, encrypt, src, done, calls, dst[at..at + done], ctx.text);
    rc := 0;
  }

  // What the chunks so far left in the destination and in the context
  ghost predicate Streamed(e: Cipher, iv: Iv, encrypt: bool, src: seq<byte>, out: seq<byte>, text: seq<byte>) {
    out == StreamFrom(e, iv, 0, src) && text == if encrypt then out else src
  }

  ghost predicate Progress(n: nat, done: nat, calls: nat) {
    && done == (if calls * INT_MAX < n then calls * INT_MAX else n)
    && (done < n ==> calls < Chunks(n))
    && (done == n ==> calls == Chunks(n))
  }

  lemma Start(e: Cipher, iv: Iv, encrypt: bool, src: seq<byte>, was: seq<byte>, at: nat)
    requires at + |src| <= |was|
    ensures Progress(|src|, 0, 0) && Framed(was, was, at, |src|)
    ensures Streamed(e, iv, encrypt, src[..0], was[at..at], [])
  {}

  lemma ChunkCount(n: nat, done: nat, chunk: nat, calls: nat)
    requires Progress(n, done, calls) && done < n && chunk == (if n - done < INT_MAX then n - done else INT_MAX)
    ensures calls < Chunks(n) && Progress(n, done + chunk, calls + 1)
  {}

  lemma Finish(e: Cipher, iv: Iv, encrypt: bool, src: seq<byte>, done: nat, calls: nat, out: seq<byte>, text: seq<byte>)
    requires |src| <= MAX_BYTES && done == |src| && Progress(|src|, done, calls)
    requires Streamed(e, iv, encrypt, src[..done], out, text)
    ensures calls == Chunks(|src|)
    ensures out == Crypt(e, iv, src) && text == if encrypt then out else src
  {
    hide StreamFrom, Crypt;
    assert src[..done] == src;
    StreamIsCrypt(e, iv, src);
  }

  // Only [at, at + size) differs
  predicate Framed(before: seq<byte>, after: seq<byte>, at: nat, size: nat)
    requires |before| == |after| && at + size <= |after|
  {
    after[..at] == before[..at] && after[at + size..] == before[at + size..]
  }

  lemma ChunkStep(e: Cipher, iv: Iv, encrypt: bool, src: seq<byte>, done: nat, chunk: nat, out: seq<byte>,
                  text: seq<byte>, piece: seq<byte>)
    requires done + chunk <= |src| && Streamed(e, iv, encrypt, src[..done], out, text)
    requires piece == StreamFrom(e, iv, done, src[done..done + chunk])
    ensures Streamed(e, iv, encrypt, src[..done + chunk], out + piece,
                     text + if encrypt then piece else src[done..done + chunk])
  {
    hide StreamFrom;
    assert src[..done + chunk] == src[..done] + src[done..done + chunk];
    StreamAppend(e, iv, 0, src[..done], src[done..done + chunk]);
  }

  // A write of chunk bytes behind the first done ones
  lemma Extend(was: seq<byte>, before: seq<byte>, after: seq<byte>, at: nat, done: nat, chunk: nat, size: nat)
    requires |was| == |before| == |after| && done + chunk <= size && at + size <= |after|
    requires Framed(was, before, at, size) && Framed(before, after, at + done, chunk)
    ensures Framed(was, after, at, size)
    ensures after[at..at + done + chunk] == before[at..at + done] + after[at + done..at + done + chunk]
  {}

  // ---- lmcache_aes128gcm_seal ----

  // The answer for n bytes in a context that is good for `healthy` more calls: each step has its own code
  function SealCode(healthy: nat, n: nat, random: bool, short: bool): int {
    if healthy == 0 then -4
    else if !random then -5
    else if healthy <= 3 then -5 - healthy
    else if healthy < 4 + Chunks(n) || n > MAX_BYTES then (if short then -21 else -20)
    else if healthy == 4 + Chunks(n) then (if short then -10 else -9)
    else if healthy == 5 + Chunks(n) then -11
    else 0
  }

  // random is what RAND_bytes delivers; a null pointer is None or null
  method Seal(key: Option<Cipher>, src: Option<seq<byte>>, dst: array?<byte>, dstLen: nat, random: Option<Iv>,
              ctx: Context?)
      returns (rc: int)
    requires dst != null ==> dstLen <= dst.Length
    modifies ctx, dst
    ensures rc <= 0
    ensures rc == -1 <==> key.None? || src.None? || dst == null
    ensures rc == -2 <==> rc != -1 && dstLen < |src.value| + 29
    ensures rc == -3 <==> rc != -1 && rc != -2 && ctx == null
    ensures rc !in {-1, -2, -3} ==> rc == SealCode(old(ctx.healthy), |src.value|, random.Some?, ctx.short)
    ensures rc == 0 <==> (
      && rc != -1 && rc != -2 && ctx != null && random.Some?
      && old(ctx.healthy) >= 6 + Chunks(|src.value|) && |src.value| <= MAX_BYTES)
    ensures rc == 0 ==> ctx.healthy == old(ctx.healthy) - 6 - Chunks(|src.value|)
    ensures dst != null && -4 <= rc < 0 ==> dst[..] == old(dst[..])
    ensures rc != -1 && rc != -2 ==> dst[|src.value| + OVERHEAD..] == old(dst[|src.value| + OVERHEAD..])
    ensures rc == 0 ==> dst[..|src.value| + OVERHEAD] == SealFrame(key.value, random.value, src.value)
    ensures rc == 0 ==> dst[0] == 1
  {
    hide SealFrame, Tag, Crypt, Chunks, Framed;
    if key.None? || src.None? || dst == null { return -1; }
    var n := |src.value|;
    if dstLen < n + OVERHEAD { return -2; }
    if ctx == null { return -3; }
    var ok := ctx.Call();
    if !ok { return -4; }
    rc := SealInto(ctx, key.value, src.value, dst, random);
    if rc == 0 {
      FrameLayout(key.value, random.value, src.value);
      assert dst[0] == dst[..n + OVERHEAD][0];
    }
  }

  // After the argument checks and the context reset
  method SealInto(ctx: Context, e: Cipher, src: seq<byte>, dst: array<byte>, random: Option<Iv>) returns (rc: int)
    requires |src| + OVERHEAD <= dst.Length
    modifies ctx, dst
    ensures rc == SealCode(old(ctx.healthy) + 1, |src|, random.Some?, ctx.short)
    ensures rc == 0 ==> ctx.healthy == old(ctx.healthy) - 5 - Chunks(|src|)
    ensures rc == 0 <==> random.Some? && old(ctx.healthy) >= 5 + Chunks(|src|) && |src| <= MAX_BYTES
    ensures dst[|src| + OVERHEAD..] == old(dst[|src| + OVERHEAD..])
    ensures rc == 0 ==> dst[..|src| + OVERHEAD] == SealFrame(e, random.value, src)
  {
    hide SealFrame, Tag, Crypt, Chunks, Framed;
    var n := |src|;
    ghost var was := dst[..];
    dst[0] := VERSION;
    if random.None? { return -5; }
    CopyTo(dst, 1, random.value);
    HeaderBytes(was, random.value, dst[..], n + OVERHEAD);
    var ok := ctx.Call();
    if !ok { return -6; }
    ok := ctx.Call();
    if !ok { return -7; }
    ok := ctx.Init(e, dst[1..HEADER_LEN]);
    if !ok { return -8; }
    ghost var header := dst[..];
    rc := UpdateAll(ctx, true, src, dst, HEADER_LEN);
    ghost var body := dst[..];
    Outside(was, header, body, HEADER_LEN, n, n + OVERHEAD);
    if rc != 0 { return; }
    rc := PutTag(ctx, dst, HEADER_LEN + n);
    Outside(was, body, dst[..], HEADER_LEN + n, 16, n + OVERHEAD);
    if rc == 0 { FrameBytes(e, random.value, src, header, body, dst[..]); }
  }

  lemma HeaderBytes(was: seq<byte>, iv: Iv, after: seq<byte>, end: nat)
    requires HEADER_LEN <= end <= |was|
    requires after == was[0 := VERSION][..1] + iv + was[0 := VERSION][HEADER_LEN..]
    ensures |after| == |was| && after[..HEADER_LEN] == [VERSION] + iv
    ensures was[end..] == after[end..]
  {}

  // The end of the seal: finish the context and have it write the tag
  method PutTag(ctx: Context, dst: array<byte>, at: nat) returns (rc: int)
    requires at + 16 <= dst.Length
    modifies ctx`healthy, dst
    ensures rc == match old(ctx.healthy) case 0 => (if ctx.short then -10 else -9) case 1 => -11 case _ => 0
    ensures rc == 0 ==> ctx.healthy == old(ctx.healthy) - 2
    ensures Framed(old(dst[..]), dst[..], at, 16)
    ensures rc == 0 ==> dst[at..at + 16] == Tag(ctx.e, ctx.iv, ctx.text)
  {
    hide Tag;
    var ok, produced := ctx.EncryptFinal();
    if !ok { return -9; }
    if produced != 0 { return -10; }
    ok := ctx.GetTag(dst, at);
    rc := if ok then 0 else -11;
  }

  lemma Outside(was: seq<byte>, before: seq<byte>, after: seq<byte>, at: nat, size: nat, end: nat)
    requires |was| == |before| == |after| && at + size <= end <= |was|
    requires was[end..] == before[end..] && Framed(before, after, at, size)
    ensures was[end..] == after[end..]
  {}

  // Header, ciphertext and tag, written one after the other, make the frame
  lemma FrameBytes(e: Cipher, iv: Iv, src: seq<byte>, header: seq<byte>, body: seq<byte>, after: seq<byte>)
    requires |src| + OVERHEAD <= |header| == |body| == |after|
    requires header[..HEADER_LEN] == [VERSION] + iv
    requires Framed(header, body, HEADER_LEN, |src|) && Framed(body, after, HEADER_LEN + |src|, 16)
    requires body[HEADER_LEN..HEADER_LEN + |src|] == Crypt(e, iv, src)
    requires after[HEADER_LEN + |src|..|src| + OVERHEAD] == Tag(e, iv, Crypt(e, iv, src))
    ensures after[..|src| + OVERHEAD] == SealFrame(e, iv, src)
  {
    hide Crypt, Tag;
    var n := |src|;
    assert body[..HEADER_LEN + n] == body[..HEADER_LEN] + body[HEADER_LEN..HEADER_LEN + n];
    assert after[..n + OVERHEAD] == after[..HEADER_LEN + n] + after[HEADER_LEN + n..n + OVERHEAD];
  }

  // ---- lmcache_aes128gcm_open ----

  // The answer for n bytes of plaintext in a context that is good for `healthy` more calls
  function OpenCode(healthy: nat, n: nat, accepted: bool, short: bool): int {
    if healthy <= 4 then -6 - healthy
    else if healthy < 5 + Chunks(n) || n > MAX_BYTES then (if short then -31 else -30)
    else if healthy == 5 + Chunks(n) || !accepted then -11
    else 0
  }

  method Open(key: Option<Cipher>, frame: Option<seq<byte>>, dst: array?<byte>, dstLen: nat, ctx: Context?)
      returns (rc: int)
    requires dst != null ==> dstLen <= dst.Length
    modifies ctx, dst
    ensures rc <= 0
    ensures rc == -1 <==> key.None? || frame.None? || dst == null
    ensures rc == -2 <==> rc != -1 && |frame.value| < 29
    ensures rc == -3 <==> rc != -1 && rc != -2 && frame.value[0] != 1
    ensures rc == -4 <==> rc !in {-1, -2, -3} && dstLen < |frame.value| - 29
    ensures rc == -5 <==> rc !in {-1, -2, -3, -4} && ctx == null
    ensures rc !in {-1, -2, -3, -4, -5} ==>
      var n := |frame.value| - 29;
      rc == OpenCode(old(ctx.healthy), n, Accepts(key.value, frame.value, n), ctx.short)
    ensures dst != null && -10 <= rc < 0 ==> dst[..] == old(dst[..])
    ensures rc < -10 ==> dst[..] == Zeros(|frame.value| - OVERHEAD) + old(dst[|frame.value| - OVERHEAD..])
    ensures rc == 0 <==> (
      && key.Some? && frame.Some? && dst != null && ctx != null && OVERHEAD <= |frame.value| <= dstLen + OVERHEAD
      && |frame.value| - OVERHEAD <= MAX_BYTES && old(ctx.healthy) >= 6 + Chunks(|frame.value| - OVERHEAD)
      && Accepts(key.value, frame.value, |frame.value| - OVERHEAD))
    ensures (
      && rc < -4 && ctx != null && |frame.value| - OVERHEAD <= MAX_BYTES
      && old(ctx.healthy) >= 6 + Chunks(|frame.value| - OVERHEAD)) ==> rc == -11
    ensures rc == 0 ==> (
      dst[..] == Plaintext(key.value, frame.value, |frame.value| - OVERHEAD) + old(dst[|frame.value| - OVERHEAD..]))
  {
    hide Tag, Crypt, Chunks, Framed;
    if key.None? || frame.None? || dst == null { return -1; }
    if |frame.value| < OVERHEAD { return -2; }
    if frame.value[0] != VERSION { return -3; }
    if dstLen < |frame.value| - OVERHEAD { return -4; }
    if ctx == null { return -5; }
    rc := OpenInto(ctx, key.value, frame.value, dst);
  }

  // After the argument checks
  method OpenInto(ctx: Context, e: Cipher, frame: seq<byte>, dst: array<byte>) returns (rc: int)
    requires OVERHEAD <= |frame| <= dst.Length + OVERHEAD && frame[0] == VERSION
    modifies ctx, dst
    ensures rc == OpenCode(old(ctx.healthy), |frame| - OVERHEAD, Accepts(e, frame, |frame| - OVERHEAD), ctx.short)
    ensures rc == 0 <==> (
      && |frame| - OVERHEAD <= MAX_BYTES && old(ctx.healthy) >= 6 + Chunks(|frame| - OVERHEAD)
      && Accepts(e, frame, |frame| - OVERHEAD))
    ensures old(ctx.healthy) >= 6 + Chunks(|frame| - OVERHEAD) && |frame| - OVERHEAD <= MAX_BYTES ==> rc in {0, -11}
    ensures -10 <= rc < 0 ==> dst[..] == old(dst[..])
    ensures rc < -10 ==> dst[..] == Zeros(|frame| - OVERHEAD) + old(dst[|frame| - OVERHEAD..])
    ensures rc == 0 ==> dst[..] == Plaintext(e, frame, |frame| - OVERHEAD) + old(dst[|frame| - OVERHEAD..])
  {
    hide Tag, Crypt, Chunks, Framed, Zeros;
    ghost var was := dst[..];
    var n := |frame| - OVERHEAD;
    var body, tag := FrameBody(frame, n), frame[HEADER_LEN + n..];
    var ok := ctx.Call();
    if !ok { return -6; }
    ok := ctx.Call();
    if !ok { return -7; }
    ok := ctx.Call();
    if !ok { return -8; }
    ok := ctx.Init(e, FrameIv(frame));
    if !ok { return -9; }
    ok := ctx.SetTag(tag);
    if !ok { return -10; }
    rc := UpdateAll(ctx, false, body, dst, 0);
    Behind(was, dst[..], n);
    if rc != 0 {
      Cleanse(dst, n);
      return;
    }
    ok := ctx.DecryptFinal();
    if !ok {
      Cleanse(dst, n);
      return -11;
    }
    rc := 0;
  }

  lemma Behind(was: seq<byte>, after: seq<byte>, n: nat)
    requires |was| == |after| >= n && Framed(was, after, 0, n)
    ensures after == after[0..n] + was[n..]
  {}

  // OPENSSL_cleanse
  method Cleanse(dst: array<byte>, n: nat)
    requires n <= dst.Length
    modifies dst
    ensures dst[..] == Zeros(n) + old(dst[n..])
  {
    for i := 0 to n
      invariant dst[..i] == Zeros(i) && dst[n..] == old(dst[n..])
    {
      dst[i] := 0;
    }
  }
}
