/** The CPU backend and the CUDA engine read each other's frames. */
module Interop {
  import opened Bytes
  import opened Gcm
  import opened Tampering
  import opened Kernels
  import opened Launches
  import opened Operations
  import opened CpuSeal
  import opened Aes

  // Device bytes from a on
  function Range(m: Memory, a: nat, n: nat): seq<byte>
    requires a + n <= |m.bytes|
  {
    m.bytes[a..a + n]
  }

  // Under AES a frame whose IV alone was changed is always rejected
  lemma OtherIvRejected(key: BlockBytes, f: seq<byte>, g: seq<byte>, n: nat)
    requires |f| >= n + OVERHEAD && |g| >= n + OVERHEAD && Accepts(Aes128(key), f, n)
    requires g[0] == f[0] && FrameBody(g, n) == FrameBody(f, n) && TagOf(g, n) == TagOf(f, n)
    ensures Accepts(Aes128(key), g, n) <==> FrameIv(g) == FrameIv(f)
  {
    hide Aes128, Accepts, J0;
    TamperedIv(Aes128(key), f, g, n);
    if Accepts(Aes128(key), g, n) {
      CipherInjective(key, J0(FrameIv(g)), J0(FrameIv(f)));
      SameIv(FrameIv(g), FrameIv(f));
    }
  }

  lemma SameIv(iv: Iv, iv': Iv)
    requires J0(iv) == J0(iv')
    ensures iv == iv'
  {
    assert iv == J0(iv)[..12] && iv' == J0(iv')[..12];
  }

  // What seal_async leaves at its destination
  lemma GpuSealed(key: BlockBytes, op: Op, ws: Workspace, m: Memory)
    requires op.SealOp? && Ready(op, ws, m)
    ensures var m' := ExecAll(Aes128(key), OpLaunches(op, ws), m);
      && SameSizes(m, m')
      && Range(m', op.dst, op.len + OVERHEAD) == SealFrame(Aes128(key), op.iv, Range(m, op.src, op.len))
  {
    hide Aes128, ExecAll, OpLaunches, SealFrame;
    OpRuns(Aes128(key), op, ws, m);
  }

  // The engine opens every frame of the CPU backend, whatever lies behind it: the flag is 1, the plaintext is
  // back, and no other byte or flag has changed
  lemma GpuOpensSealed(key: BlockBytes, iv: Iv, p: seq<byte>, op: Op, ws: Workspace, m: Memory)
    requires op.OpenOp? && Ready(op, ws, m) && op.len == |p| && CipherBlocks(|p|) <= MAX_BLOCKS
    requires Range(m, op.src, op.len + OVERHEAD) == SealFrame(Aes128(key), iv, p)
    ensures UserOf(ExecAll(Aes128(key), OpLaunches(op, ws), m))
      == User(Splice(m.bytes, op.dst, p), m.flags[op.flag := 1])
  {
    hide Aes128, ExecAll, OpLaunches, SealFrame, SpecOp;
    OpRuns(Aes128(key), op, ws, m);
    OpensSealed(Aes128(key), op, iv, p, UserOf(m));
  }

  // Under one key and IV the CPU backend prints the frame the engine left on the device, and opens the engine's
  method CrossOpen(key: BlockBytes, p: seq<byte>, ctx: Context, ghost m: Memory, ghost ws: Workspace, ghost op: Op,
                   iv: Iv, gpuFrame: seq<byte>)
      returns (cpuFrame: array<byte>, plain: array<byte>, sealRc: int, openRc: int)
    requires op.SealOp? && op.iv == iv && op.len == |p| && Ready(op, ws, m) && Range(m, op.src, |p|) == p
    requires SameSizes(m, ExecAll(Aes128(key), OpLaunches(op, ws), m))
    requires gpuFrame == Range(ExecAll(Aes128(key), OpLaunches(op, ws), m), op.dst, |p| + OVERHEAD)
    requires ctx.healthy >= 12 + 2 * Chunks(|p|)
    modifies ctx
    ensures fresh(cpuFrame) && sealRc == 0 && cpuFrame[..] == gpuFrame
    ensures fresh(plain) && openRc == 0 && plain[..] == p
  {
    hide Aes128, ExecAll, OpLaunches, SealFrame, Accepts, Plaintext, Chunks, WorkspaceFits;
    GpuSealed(key, op, ws, m);
    BytesFit(|p|);
    cpuFrame := new byte[|p| + OVERHEAD](i => 0);
    sealRc := Seal(Some(Aes128(key)), Some(p), cpuFrame, cpuFrame.Length, Some(iv), ctx);
    assert cpuFrame[..|p| + OVERHEAD] == cpuFrame[..];
    RoundTrip(Aes128(key), iv, p, []);
    assert gpuFrame + [] == gpuFrame;
    plain := new byte[|p|](i => 0);
    openRc := CpuSeal.Open(Some(Aes128(key)), Some(gpuFrame), plain, |p|, ctx);
  }

  lemma BytesFit(n: nat)
    ensures CipherBlocks(n) <= MAX_BLOCKS <==> n <= MAX_BYTES
  {}
}
