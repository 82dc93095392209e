/** The launches of one seal or open, run in order, against SP 800-38D. */
module Operations {
  import opened Words
  import opened Blocks
  import opened Bytes
  import opened GhashTree
  import opened Gcm
  import opened Kernels
  import opened Launches

  // The two GHASH buffers of a key handle and their common capacity
  datatype Workspace = Workspace(a: nat, b: nat, capacity: nat)

  datatype Op =
    | SealOp(src: nat, len: nat, dst: nat, iv: Iv)
    | OpenOp(src: nat, len: nat, dst: nat, flag: nat)

  // What the caller of seal_async or open_async promises about its pointers
  predicate OpFits(op: Op, m: Memory) {
    match op
    case SealOp(src, len, dst, iv) =>
      && src + len <= |m.bytes| && dst + len + OVERHEAD <= |m.bytes| && Apart(src, len, dst, len + OVERHEAD)
      && CipherBlocks(len) <= MAX_BLOCKS
    case OpenOp(src, len, dst, flag) =>
      && src + len + OVERHEAD <= |m.bytes| && dst + len <= |m.bytes| && Apart(src, len + OVERHEAD, dst, len)
      && flag < |m.flags| && len + OVERHEAD < TWO64
  }

  predicate WorkspaceFits(ws: Workspace, m: Memory) {
    && ws.a + ws.capacity <= |m.nodes| && ws.b + ws.capacity <= |m.nodes|
    && Apart(ws.a, ws.capacity, ws.b, ws.capacity)
  }

  predicate InWorkspace(ws: Workspace, i: nat) { ws.a <= i < ws.a + ws.capacity || ws.b <= i < ws.b + ws.capacity }

  // ---- enqueue_ghash ----

  function CombineLaunches(input: nat, output: nat, count: nat): seq<Launch>
    decreases count
  {
    if count <= 1 then [] else [Combine(input, output, count)] + CombineLaunches(output, input, CeilDiv(count, 2))
  }

  function RootAt(input: nat, output: nat, count: nat): nat
    decreases count
  {
    if count <= 1 then input else RootAt(output, input, CeilDiv(count, 2))
  }

  function GhashLaunches(text: nat, len: nat, ws: Workspace): seq<Launch> {
    [Segment(text, len, ws.a)] + CombineLaunches(ws.a, ws.b, Segs(len))
  }

  function GhashRoot(len: nat, ws: Workspace): nat { RootAt(ws.a, ws.b, Segs(len)) }

  // ---- seal_async and open_async ----

  function CtrLaunches(src: nat, dst: nat, len: nat, ivAt: nat, gate: Option<nat>): seq<Launch> {
    if CipherBlocks(len) > 0 then [Ctr(src, dst, len, ivAt, gate)] else []
  }

  function OpLaunches(op: Op, ws: Workspace): seq<Launch> {
    match op
    case SealOp(src, len, dst, iv) =>
      [Header(dst, iv)] + CtrLaunches(src, dst + HEADER_LEN, len, dst + 1, None)
      + GhashLaunches(dst + HEADER_LEN, len, ws) + [Finalize(dst, len, GhashRoot(len, ws))]
    case OpenOp(src, len, dst, flag) =>
      GhashLaunches(src + HEADER_LEN, len, ws) + [Verify(src, len, GhashRoot(len, ws), flag)]
      + CtrLaunches(src + HEADER_LEN, dst, len, src + 1, Some(flag))
  }

  // ---- Running launches one after another ----

  type Runner = (Launch, Memory) -> Memory

  function RunAll(run: Runner, ls: seq<Launch>, m: Memory): Memory {
    if ls == [] then m else run(ls[|ls| - 1], RunAll(run, ls[..|ls| - 1], m))
  }

  lemma {:induction false} RunAllAppend(run: Runner, xs: seq<Launch>, ys: seq<Launch>, m: Memory)
    ensures RunAll(run, xs + ys, m) == RunAll(run, ys, RunAll(run, xs, m))
  {
    if ys == [] {
      assert xs + ys == xs;
    } else {
      assert (xs + ys)[..|xs + ys| - 1] == xs + ys[..|ys| - 1];
      RunAllAppend(run, xs, ys[..|ys| - 1], m);
    }
  }

  lemma RunAllOne(run: Runner, l: Launch, m: Memory)
    ensures RunAll(run, [l], m) == run(l, m)
  {}

  lemma RunAllCons(run: Runner, l: Launch, ls: seq<Launch>, m: Memory)
    ensures RunAll(run, [l] + ls, m) == RunAll(run, ls, run(l, m))
  {
    RunAllAppend(run, [l], ls, m);
    RunAllOne(run, l, m);
  }

  function Executor(e: Cipher): Runner { (l, m) => Exec(e, l, m) }

  // The launches of a stream, one after the other
  function ExecAll(e: Cipher, ls: seq<Launch>, m: Memory): Memory { RunAll(Executor(e), ls, m) }

  lemma {:induction false} ExecAllSize(e: Cipher, ls: seq<Launch>, m: Memory)
    ensures SameSizes(m, ExecAll(e, ls, m))
  {
    if ls != [] { ExecAllSize(e, ls[..|ls| - 1], m); }
  }

  lemma ExecAllAppend(e: Cipher, xs: seq<Launch>, ys: seq<Launch>, m: Memory)
    ensures ExecAll(e, xs + ys, m) == ExecAll(e, ys, ExecAll(e, xs, m))
  {
    RunAllAppend(Executor(e), xs, ys, m);
  }

  lemma ExecAllSnoc(e: Cipher, ls: seq<Launch>, l: Launch, m: Memory)
    ensures ExecAll(e, ls + [l], m) == Exec(e, l, ExecAll(e, ls, m))
  {}

  lemma ExecAllNone(e: Cipher, m: Memory)
    ensures ExecAll(e, [], m) == m
  {}

  lemma ExecAllOne(e: Cipher, l: Launch, m: Memory)
    ensures ExecAll(e, [l], m) == Exec(e, l, m)
  {
    RunAllOne(Executor(e), l, m);
  }

  // ---- The reduction loop ----

  datatype User = User(bytes: seq<byte>, flags: seq<int>)

  // What callers can see of device memory: all of it but the workspace
  function UserOf(m: Memory): User { User(m.bytes, m.flags) }

  // Ping-pong combining leaves the root of the tree where the swaps say it is, whatever the buffers held before
  lemma {:induction false} CombineAllRuns(e: Cipher, input: nat, output: nat, capacity: nat, count: nat, m: Memory)
    requires WorkspaceFits(Workspace(input, output, capacity), m) && 1 <= count <= capacity
    ensures var m' := ExecAll(e, CombineLaunches(input, output, count), m);
      && SameSizes(m, m') && UserOf(m') == UserOf(m)
      && RootAt(input, output, count) in {input, output}
      && m'.nodes[RootAt(input, output, count)] == Root(HashKey(e), m.nodes[input..input + count])
    decreases count
  {
    hide Level, HashKey, Exec;
    if count > 1 {
      var next := Exec(e, Combine(input, output, count), m);
      CombineStep(e, input, output, count, m);
      CombineAllRuns(e, output, input, capacity, CeilDiv(count, 2), next);
      RunAllCons(Executor(e), Combine(input, output, count), CombineLaunches(output, input, CeilDiv(count, 2)), m);
    }
  }

  lemma CombineStep(e: Cipher, input: nat, output: nat, count: nat, m: Memory)
    requires Fits(Combine(input, output, count), m)
    ensures var m' := Exec(e, Combine(input, output, count), m);
      && UserOf(m') == UserOf(m)
      && m'.nodes[output..output + CeilDiv(count, 2)] == Level(HashKey(e), m.nodes[input..input + count])
  {
    hide Level, HashKey;
  }

  lemma SegmentStep(e: Cipher, text: nat, len: nat, output: nat, m: Memory)
    requires Fits(Segment(text, len, output), m)
    ensures var m' := Exec(e, Segment(text, len, output), m);
      && UserOf(m') == UserOf(m)
      && m'.nodes[output..output + Segs(len)] == Segments(HashKey(e), Terms(m.bytes[text..text + len]))
  {
    hide Segments, Terms, HashKey;
  }

  // The whole of enqueue_ghash: the root node holds the node of all terms of the text
  lemma TreeRuns(e: Cipher, text: nat, len: nat, ws: Workspace, m: Memory)
    requires Fits(Segment(text, len, ws.a), m) && WorkspaceFits(ws, m) && Segs(len) <= ws.capacity
    ensures GhashRoot(len, ws) in {ws.a, ws.b}
    ensures var m' := ExecAll(e, GhashLaunches(text, len, ws), m);
      && SameSizes(m, m') && UserOf(m') == UserOf(m)
      && m'.nodes[GhashRoot(len, ws)] == Root(HashKey(e), Segments(HashKey(e), Terms(m.bytes[text..text + len])))
  {
    hide Segments, Root, Terms, HashKey;
    var next := Exec(e, Segment(text, len, ws.a), m);
    SegmentStep(e, text, len, ws.a, m);
    CombineAllRuns(e, ws.a, ws.b, ws.capacity, Segs(len), next);
    RunAllCons(Executor(e), Segment(text, len, ws.a), CombineLaunches(ws.a, ws.b, Segs(len)), m);
  }

  // Node root holds GHASH of the string of section 7.1 for the ciphertext c, and counts its blocks
  ghost predicate HoldsHash(e: Cipher, m: Memory, root: nat, c: seq<byte>) {
    && root < |m.nodes|
    && m.nodes[root].lenBlocks == TermCount(|c|)
    && m.nodes[root].y == Ghash(HashKey(e), BlocksOf(HashInput(c)))
  }

  lemma GhashRuns(e: Cipher, text: nat, len: nat, ws: Workspace, m: Memory)
    requires Fits(Segment(text, len, ws.a), m) && WorkspaceFits(ws, m) && Segs(len) <= ws.capacity
    ensures var m' := ExecAll(e, GhashLaunches(text, len, ws), m);
      SameSizes(m, m') && UserOf(m') == UserOf(m) && HoldsHash(e, m', GhashRoot(len, ws), m.bytes[text..text + len])
  {
    hide Segments, Root, Terms, HashKey, ExecAll, HashInput, BlocksOf, Ghash;
    TreeRuns(e, text, len, ws, m);
    TreeIsGhash(HashKey(e), Terms(m.bytes[text..text + len]));
    TermsAreHashInput(m.bytes[text..text + len]);
  }

  // ---- Whole operations ----

  // The destination of an open: zeros on rejection, else the counter-mode bytes
  function OpenOutput(e: Cipher, frame: seq<byte>, n: nat, before: seq<byte>): (out: seq<byte>)
    requires |frame| == n + OVERHEAD && |before| == n
    ensures |out| == n
  {
    CtrOutput(e, FrameIv(frame), !Accepts(e, frame, n), FrameBody(frame, n), before)
  }

  // The effect of an operation, without launches or workspace
  function SpecOp(e: Cipher, op: Op, u: User): User
    requires OpFits(op, Memory(u.bytes, u.flags, []))
  {
    match op
    case SealOp(src, len, dst, iv) => u.(bytes := Splice(u.bytes, dst, SealFrame(e, iv, u.bytes[src..src + len])))
    case OpenOp(src, len, dst, flag) =>
      var frame := u.bytes[src..src + len + OVERHEAD];
      User(Splice(u.bytes, dst, OpenOutput(e, frame, len, u.bytes[dst..dst + len])),
           u.flags[flag := if Accepts(e, frame, len) then 1 else 0])
  }

  lemma SpliceTwice<T>(s: seq<T>, a: nat, x: seq<T>, y: seq<T>)
    requires a + |x| + |y| <= |s|
    ensures Splice(Splice(s, a, x), a + |x|, y) == Splice(s, a, x + y)
  {}

  lemma SpliceRead<T>(s: seq<T>, a: nat, x: seq<T>, b: nat, n: nat)
    requires a + |x| <= |s| && b + n <= |s|
    ensures a <= b && b + n <= a + |x| ==> Splice(s, a, x)[b..b + n] == x[b - a..b - a + n]
    ensures Apart(a, |x|, b, n) ==> Splice(s, a, x)[b..b + n] == s[b..b + n]
  {}

  // Within the length bound the CTR launch is GCTR
  lemma CtrOutputIsCrypt(e: Cipher, iv: Iv, x: seq<byte>, before: seq<byte>)
    requires |x| == |before| && CipherBlocks(|x|) <= MAX_BLOCKS
    ensures CtrOutput(e, iv, false, x, before) == Crypt(e, iv, x)
  {
    forall i | 0 <= i < |x| ensures CtrOutput(e, iv, false, x, before)[i] == Crypt(e, iv, x)[i] {
      CtrBytesAreCrypt(e, iv, x, i, before[i]);
    }
  }

  // The length bound is exact: past it the CTR launch is not GCTR, since it leaves bytes as it found them
  lemma CtrBoundIsExact(e: Cipher, iv: Iv, x: seq<byte>)
    ensures (forall before: seq<byte> | |before| == |x| :: CtrOutput(e, iv, false, x, before) == Crypt(e, iv, x))
       <==> CipherBlocks(|x|) <= MAX_BLOCKS
  {
    hide Crypt;
    if CipherBlocks(|x|) <= MAX_BLOCKS {
      forall before: seq<byte> | |before| == |x| ensures CtrOutput(e, iv, false, x, before) == Crypt(e, iv, x) {
        CtrOutputIsCrypt(e, iv, x, before);
      }
    } else {
      var s, t, i := Zeros(|x|), seq(|x|, _ => 1), 16 * MAX_BLOCKS;
      assert CtrOutput(e, iv, false, x, s)[i] == s[i] && CtrOutput(e, iv, false, x, t)[i] == t[i];
      assert CtrOutput(e, iv, false, x, s) != Crypt(e, iv, x) || CtrOutput(e, iv, false, x, t) != Crypt(e, iv, x);
    }
  }

  // The CTR launch, or its absence when there is nothing to encrypt
  lemma CtrStep(e: Cipher, src: nat, dst: nat, len: nat, ivAt: nat, gate: Option<nat>, m: Memory)
    requires Fits(Ctr(src, dst, len, ivAt, gate), m)
    ensures ExecAll(e, CtrLaunches(src, dst, len, ivAt, gate), m)
         == m.(bytes := Splice(m.bytes, dst,
              CtrOutput(e, IvAt(m, ivAt), Shut(m, gate), m.bytes[src..src + len], m.bytes[dst..dst + len])))
  {
    hide CtrOutput, ExecAll, Exec;
    CtrExec(e, src, dst, len, ivAt, gate, m);
    if CipherBlocks(len) > 0 {
      ExecAllOne(e, Ctr(src, dst, len, ivAt, gate), m);
    } else {
      ExecAllNone(e, m);
      assert Splice(m.bytes, dst, []) == m.bytes;
    }
  }

  lemma CtrExec(e: Cipher, src: nat, dst: nat, len: nat, ivAt: nat, gate: Option<nat>, m: Memory)
    requires Fits(Ctr(src, dst, len, ivAt, gate), m)
    ensures Exec(e, Ctr(src, dst, len, ivAt, gate), m)
         == m.(bytes := Splice(m.bytes, dst,
              CtrOutput(e, IvAt(m, ivAt), Shut(m, gate), m.bytes[src..src + len], m.bytes[dst..dst + len])))
  {
    hide CtrOutput;
  }

  // ---- Seal ----

  // Header and CTR launch: version, IV and ciphertext are in place
  lemma SealBody(e: Cipher, src: nat, len: nat, dst: nat, iv: Iv, m: Memory)
    requires OpFits(SealOp(src, len, dst, iv), m)
    ensures ExecAll(e, CtrLaunches(src, dst + HEADER_LEN, len, dst + 1, None), ExecAll(e, [Header(dst, iv)], m))
         == m.(bytes := Splice(m.bytes, dst, [VERSION] + iv + Crypt(e, iv, m.bytes[src..src + len])))
  {
    hide ExecAll, Exec, CtrLaunches, CtrOutput, Crypt;
    var p, head, body := m.bytes[src..src + len], [VERSION] + iv, dst + HEADER_LEN;
    ExecAllOne(e, Header(dst, iv), m);
    HeaderExec(e, dst, iv, m);
    var m1 := m.(bytes := Splice(m.bytes, dst, head));
    SpliceRead(m.bytes, dst, head, src, len);
    SpliceRead(m.bytes, dst, head, dst + 1, 12);
    assert IvAt(m1, dst + 1) == iv;
    CtrStep(e, src, body, len, dst + 1, None, m1);
    CtrOutputIsCrypt(e, iv, p, m1.bytes[body..body + len]);
    SpliceTwice(m.bytes, dst, head, Crypt(e, iv, p));
  }

  lemma HeaderExec(e: Cipher, frame: nat, iv: Iv, m: Memory)
    requires Fits(Header(frame, iv), m)
    ensures Exec(e, Header(frame, iv), m) == m.(bytes := Splice(m.bytes, frame, [VERSION] + iv))
  {}

  // GHASH and tag behind the ciphertext c
  lemma SealTag(e: Cipher, len: nat, dst: nat, iv: Iv, c: seq<byte>, ws: Workspace, b: seq<byte>, m: Memory)
    requires WorkspaceFits(ws, m) && Segs(len) <= ws.capacity && |c| == len && len + OVERHEAD < TWO64
    requires dst + len + OVERHEAD <= |b| && m.bytes == Splice(b, dst, [VERSION] + iv + c)
    ensures UserOf(ExecAll(e, [Finalize(dst, len, GhashRoot(len, ws))],
                     ExecAll(e, GhashLaunches(dst + HEADER_LEN, len, ws), m)))
         == User(Splice(b, dst, [VERSION] + iv + c + Tag(e, iv, c)), m.flags)
  {
    hide Tag, ExecAll, GhashLaunches, GhashRoot, Ghash, HashInput, BlocksOf;
    var front, body, root := [VERSION] + iv + c, dst + HEADER_LEN, GhashRoot(len, ws);
    SpliceRead(b, dst, front, body, len);
    SpliceRead(b, dst, front, dst + 1, 12);
    assert m.bytes[body..body + len] == c;
    assert IvAt(m, dst + 1) == iv;
    GhashRuns(e, body, len, ws, m);
    var m' := ExecAll(e, GhashLaunches(body, len, ws), m);
    FinalizeStep(e, dst, len, root, iv, c, m');
    SpliceTwice(b, dst, front, Tag(e, iv, c));
  }

  lemma FinalizeStep(e: Cipher, dst: nat, len: nat, root: nat, iv: Iv, c: seq<byte>, m: Memory)
    requires Fits(Finalize(dst, len, root), m) && IvAt(m, dst + 1) == iv
    requires HoldsHash(e, m, root, c)
    ensures ExecAll(e, [Finalize(dst, len, root)], m)
      == m.(bytes := Splice(m.bytes, dst + HEADER_LEN + len, Tag(e, iv, c)))
  {
    hide Ghash, HashInput, BlocksOf, HashKey;
    ExecAllOne(e, Finalize(dst, len, root), m);
  }

  lemma SealRuns(e: Cipher, src: nat, len: nat, dst: nat, iv: Iv, ws: Workspace, m: Memory)
    requires OpFits(SealOp(src, len, dst, iv), m) && WorkspaceFits(ws, m) && Segs(len) <= ws.capacity
    ensures UserOf(ExecAll(e, OpLaunches(SealOp(src, len, dst, iv), ws), m))
         == User(Splice(m.bytes, dst, SealFrame(e, iv, m.bytes[src..src + len])), m.flags)
  {
    var c := Crypt(e, iv, m.bytes[src..src + len]);
    SealBody(e, src, len, dst, iv, m);
    SealTag(e, len, dst, iv, c, ws, m.bytes, m.(bytes := Splice(m.bytes, dst, [VERSION] + iv + c)));
    SealOrder(e, src, len, dst, iv, ws, m);
  }

  lemma SealOrder(e: Cipher, src: nat, len: nat, dst: nat, iv: Iv, ws: Workspace, m: Memory)
    ensures ExecAll(e, OpLaunches(SealOp(src, len, dst, iv), ws), m)
         == ExecAll(e, [Finalize(dst, len, GhashRoot(len, ws))],
              ExecAll(e, GhashLaunches(dst + HEADER_LEN, len, ws),
                ExecAll(e, CtrLaunches(src, dst + HEADER_LEN, len, dst + 1, None), ExecAll(e, [Header(dst, iv)], m))))
  {
    var h, c := [Header(dst, iv)], CtrLaunches(src, dst + HEADER_LEN, len, dst + 1, None);
    var g, f := GhashLaunches(dst + HEADER_LEN, len, ws), [Finalize(dst, len, GhashRoot(len, ws))];
    RunAllAppend(Executor(e), h + c + g, f, m);
    RunAllAppend(Executor(e), h + c, g, m);
    RunAllAppend(Executor(e), h, c, m);
  }

  // ---- Open ----

  lemma VerdictIsAccepts(e: Cipher, frame: seq<byte>, len: nat, s: Block128)
    requires |frame| == len + OVERHEAD
    requires s == Ghash(HashKey(e), BlocksOf(HashInput(FrameBody(frame, len))))
    ensures Verdict(e, frame, len, s) == if Accepts(e, frame, len) then 1 else 0
  {
    assert frame[HEADER_LEN + len..] == frame[13 + len..len + OVERHEAD];
  }

  lemma VerifyStep(e: Cipher, src: nat, len: nat, root: nat, flag: nat, m: Memory)
    requires Fits(Verify(src, len, root, flag), m)
    requires HoldsHash(e, m, root, FrameBody(m.bytes[src..src + len + OVERHEAD], len))
    ensures ExecAll(e, [Verify(src, len, root, flag)], m)
         == m.(flags := m.flags[flag := if Accepts(e, m.bytes[src..src + len + OVERHEAD], len) then 1 else 0])
  {
    hide Ghash, HashInput, BlocksOf, HashKey, Verdict, Accepts;
    ExecAllOne(e, Verify(src, len, root, flag), m);
    VerdictIsAccepts(e, m.bytes[src..src + len + OVERHEAD], len, m.nodes[root].y);
  }

  // GHASH and verify: the flag holds the verdict on the frame
  lemma OpenVerify(e: Cipher, src: nat, len: nat, flag: nat, ws: Workspace, m: Memory)
    requires src + len + OVERHEAD <= |m.bytes| && flag < |m.flags| && len + OVERHEAD < TWO64
    requires WorkspaceFits(ws, m) && Segs(len) <= ws.capacity
    ensures var hashed := ExecAll(e, GhashLaunches(src + HEADER_LEN, len, ws), m);
      var m' := ExecAll(e, [Verify(src, len, GhashRoot(len, ws), flag)], hashed);
      && SameSizes(m, m')
      && UserOf(m')
        == User(m.bytes, m.flags[flag := if Accepts(e, m.bytes[src..src + len + OVERHEAD], len) then 1 else 0])
  {
    hide Accepts, ExecAll, GhashLaunches, GhashRoot, Ghash, HashInput, BlocksOf;
    var body := src + HEADER_LEN;
    SliceOfSlice(m.bytes, src, len + OVERHEAD, HEADER_LEN, HEADER_LEN + len);
    GhashRuns(e, body, len, ws, m);
    VerifyStep(e, src, len, GhashRoot(len, ws), flag, ExecAll(e, GhashLaunches(body, len, ws), m));
  }

  // The gated CTR launch behind a verdict
  lemma OpenCtr(e: Cipher, src: nat, len: nat, dst: nat, flag: nat, m: Memory)
    requires OpFits(OpenOp(src, len, dst, flag), m)
    requires (m.flags[flag] == 0) == !Accepts(e, m.bytes[src..src + len + OVERHEAD], len)
    ensures ExecAll(e, CtrLaunches(src + HEADER_LEN, dst, len, src + 1, Some(flag)), m)
         == m.(bytes := Splice(m.bytes, dst,
              OpenOutput(e, m.bytes[src..src + len + OVERHEAD], len, m.bytes[dst..dst + len])))
  {
    hide CtrOutput, Accepts, ExecAll;
    var frame, body := m.bytes[src..src + len + OVERHEAD], src + HEADER_LEN;
    SliceOfSlice(m.bytes, src, len + OVERHEAD, HEADER_LEN, HEADER_LEN + len);
    SliceOfSlice(m.bytes, src, len + OVERHEAD, 1, HEADER_LEN);
    CtrStep(e, body, dst, len, src + 1, Some(flag), m);
  }

  lemma OpenRuns(e: Cipher, src: nat, len: nat, dst: nat, flag: nat, ws: Workspace, m: Memory)
    requires OpFits(OpenOp(src, len, dst, flag), m) && WorkspaceFits(ws, m) && Segs(len) <= ws.capacity
    ensures UserOf(ExecAll(e, OpLaunches(OpenOp(src, len, dst, flag), ws), m))
      == SpecOp(e, OpenOp(src, len, dst, flag), UserOf(m))
  {
    hide OpenOutput, Accepts, ExecAll, CtrLaunches, GhashLaunches, GhashRoot;
    OpenVerify(e, src, len, flag, ws, m);
    var hashed := ExecAll(e, GhashLaunches(src + HEADER_LEN, len, ws), m);
    var m2 := ExecAll(e, [Verify(src, len, GhashRoot(len, ws), flag)], hashed);
    OpenCtr(e, src, len, dst, flag, m2);
    OpenOrder(e, src, len, dst, flag, ws, m);
  }

  lemma OpenOrder(e: Cipher, src: nat, len: nat, dst: nat, flag: nat, ws: Workspace, m: Memory)
    ensures ExecAll(e, OpLaunches(OpenOp(src, len, dst, flag), ws), m)
         == ExecAll(e, CtrLaunches(src + HEADER_LEN, dst, len, src + 1, Some(flag)),
              ExecAll(e, [Verify(src, len, GhashRoot(len, ws), flag)],
                ExecAll(e, GhashLaunches(src + HEADER_LEN, len, ws), m)))
  {
    hide GhashLaunches, CtrLaunches, GhashRoot;
    var g, v := GhashLaunches(src + HEADER_LEN, len, ws), [Verify(src, len, GhashRoot(len, ws), flag)];
    var c := CtrLaunches(src + HEADER_LEN, dst, len, src + 1, Some(flag));
    RunAllAppend(Executor(e), g + v, c, m);
    RunAllAppend(Executor(e), g, v, m);
  }

  // ---- Either operation ----

  ghost predicate Ready(op: Op, ws: Workspace, m: Memory) {
    OpFits(op, m) && WorkspaceFits(ws, m) && Segs(op.len) <= ws.capacity
  }

  // Run in stream order, an operation has exactly its specified effect, whatever its workspace held
  lemma OpRuns(e: Cipher, op: Op, ws: Workspace, m: Memory)
    requires Ready(op, ws, m)
    ensures SameSizes(m, ExecAll(e, OpLaunches(op, ws), m))
    ensures UserOf(ExecAll(e, OpLaunches(op, ws), m)) == SpecOp(e, op, UserOf(m))
  {
    hide OpLaunches, ExecAll, SealFrame, OpenOutput, Accepts;
    ExecAllSize(e, OpLaunches(op, ws), m);
    match op
    case SealOp(src, len, dst, iv) => SealRuns(e, src, len, dst, iv, ws, m);
    case OpenOp(src, len, dst, flag) => OpenRuns(e, src, len, dst, flag, ws, m);
  }

  // Every pointer of every launch is in bounds, and no launch reads what it writes
  lemma OpLaunchesFit(op: Op, ws: Workspace, m: Memory)
    requires Ready(op, ws, m)
    ensures forall i :: 0 <= i < |OpLaunches(op, ws)| ==> Fits(OpLaunches(op, ws)[i], m)
  {
    GhashLaunchesFit(if op.SealOp? then op.dst + HEADER_LEN else op.src + HEADER_LEN, op.len, ws, m);
  }

  lemma GhashLaunchesFit(text: nat, len: nat, ws: Workspace, m: Memory)
    requires text + len <= |m.bytes| && len + OVERHEAD < TWO64 && WorkspaceFits(ws, m) && Segs(len) <= ws.capacity
    ensures GhashRoot(len, ws) < |m.nodes|
    ensures forall i :: 0 <= i < |GhashLaunches(text, len, ws)| ==> Fits(GhashLaunches(text, len, ws)[i], m)
  {
    CombineLaunchesFit(ws.a, ws.b, ws.capacity, Segs(len), m);
  }

  lemma {:induction false} CombineLaunchesFit(input: nat, output: nat, capacity: nat, count: nat, m: Memory)
    requires WorkspaceFits(Workspace(input, output, capacity), m) && 1 <= count <= capacity
    ensures RootAt(input, output, count) < |m.nodes|
    ensures forall i :: 0 <= i < |CombineLaunches(input, output, count)| ==>
      Fits(CombineLaunches(input, output, count)[i], m)
    decreases count
  {
    if count > 1 { CombineLaunchesFit(output, input, capacity, CeilDiv(count, 2), m); }
  }

  // enqueue_ghash launches one combine per level, and its root is in the first buffer exactly when their number is even
  lemma {:induction false} PingPong(input: nat, output: nat, count: nat)
    requires count >= 1
    ensures |CombineLaunches(input, output, count)| == Levels(count)
    ensures RootAt(input, output, count) == if Levels(count) % 2 == 0 then input else output
    decreases count
  {
    if count > 1 { PingPong(output, input, CeilDiv(count, 2)); }
  }

  // required_nodes: one node for every 64 terms, which are the blocks of 16 bytes and one more
  lemma SegsExact(len: nat, n: nat)
    ensures n == Segs(len) <==> 64 * (n as int - 1) < (len + 15) / 16 + 1 <= 64 * n
  {}

  // required_nodes grows with the length, so a workspace for n serves every shorter text
  lemma SegsMonotone(m: nat, n: nat)
    requires m <= n
    ensures 1 <= Segs(m) <= Segs(n)
  {}

  // ---- What open leaves behind ----

  lemma OpenOutputRejected(e: Cipher, frame: seq<byte>, n: nat, before: seq<byte>)
    requires |frame| == n + OVERHEAD && |before| == n && !Accepts(e, frame, n)
    ensures OpenOutput(e, frame, n, before) == Zeros(n)
  {}

  lemma OpenOutputAccepted(e: Cipher, frame: seq<byte>, n: nat, before: seq<byte>)
    requires |frame| == n + OVERHEAD && |before| == n && Accepts(e, frame, n) && CipherBlocks(n) <= MAX_BLOCKS
    ensures OpenOutput(e, frame, n, before) == Plaintext(e, frame, n)
  {
    CtrOutputIsCrypt(e, FrameIv(frame), FrameBody(frame, n), before);
  }

  // A rejected frame, whatever its length: the destination is zeroed, the flag is 0, and nothing else changes
  lemma RejectedOpenWipes(e: Cipher, op: Op, ws: Workspace, m: Memory)
    requires op.OpenOp? && Ready(op, ws, m)
    requires m.bytes[op.src] != 1 || !Accepts(e, m.bytes[op.src..op.src + op.len + OVERHEAD], op.len)
    ensures UserOf(ExecAll(e, OpLaunches(op, ws), m))
         == User(Splice(m.bytes, op.dst, Zeros(op.len)), m.flags[op.flag := 0])
  {
    hide Tag, ExecAll, OpLaunches, OpenOutput, Zeros;
    assert m.bytes[op.src..op.src + op.len + OVERHEAD][0] == m.bytes[op.src];
    OpRuns(e, op, ws, m);
    OpenOutputRejected(e, m.bytes[op.src..op.src + op.len + OVERHEAD], op.len, m.bytes[op.dst..op.dst + op.len]);
  }

  // Opening the frame of p, wherever it came from, restores p and sets the flag
  lemma OpensSealed(e: Cipher, op: Op, iv: Iv, p: seq<byte>, u: User)
    requires OpFits(op, Memory(u.bytes, u.flags, [])) && op.OpenOp? && op.len == |p| && CipherBlocks(|p|) <= MAX_BLOCKS
    requires u.bytes[op.src..op.src + op.len + OVERHEAD] == SealFrame(e, iv, p)
    ensures SpecOp(e, op, u) == User(Splice(u.bytes, op.dst, p), u.flags[op.flag := 1])
  {
    hide Accepts, OpenOutput, SealFrame, Plaintext;
    var f := SealFrame(e, iv, p);
    RoundTrip(e, iv, p, []);
    assert f + [] == f;
    OpenOutputAccepted(e, f, op.len, u.bytes[op.dst..op.dst + op.len]);
  }

  // Open does not check the length bound that seal checks, and on accepted frames that bound is exactly when
  // the destination ends as the plaintext whatever it held before
  lemma OpenBoundIsExact(e: Cipher, frame: seq<byte>, n: nat)
    requires |frame| == n + OVERHEAD && Accepts(e, frame, n)
    ensures (forall before: seq<byte> | |before| == n :: OpenOutput(e, frame, n, before) == Plaintext(e, frame, n))
       <==> CipherBlocks(n) <= MAX_BLOCKS
  {
    hide Accepts, CtrOutput, Crypt;
    CtrBoundIsExact(e, FrameIv(frame), FrameBody(frame, n));
    forall before: seq<byte> | |before| == n
      ensures OpenOutput(e, frame, n, before) == CtrOutput(e, FrameIv(frame), false, FrameBody(frame, n), before)
    {}
  }

  // ---- An open beyond the bound ----

  const OVERSIZE := 16 * MAX_BLOCKS + 1

  // A sealed frame of zeros, one byte longer than seal_async allows, and a destination full of ones
  function OversizedMemory(e: Cipher, iv: Iv): Memory {
    Memory(SealFrame(e, iv, Zeros(OVERSIZE)) + Ones(OVERSIZE), [0], seq(2 * Segs(OVERSIZE), _ => GHashNode(ZERO, 0)))
  }

  function Ones(n: nat): (s: seq<byte>)
    ensures |s| == n
  {
    seq(n, _ => 1)
  }

  function OversizedOpen(): Op { OpenOp(0, OVERSIZE, OVERSIZE + OVERHEAD, 0) }

  // open_async takes it, the flag says authentic, and the last byte is still the old 1 instead of 0
  lemma OversizedOpenFails(e: Cipher, iv: Iv)
    ensures var m, op, ws := OversizedMemory(e, iv), OversizedOpen(), Workspace(0, Segs(OVERSIZE), Segs(OVERSIZE));
      && Ready(op, ws, m)
      && var m' := ExecAll(e, OpLaunches(op, ws), m);
         && SameSizes(m, m') && m'.flags[op.flag] == 1
         && Plaintext(e, m.bytes, OVERSIZE)[OVERSIZE - 1] == 0 && m'.bytes[op.dst + OVERSIZE - 1] == 1
  {
    hide Accepts, SealFrame, Plaintext, ExecAll, OpLaunches, Segs, CtrOutput, Ones;
    var m, op, ws := OversizedMemory(e, iv), OversizedOpen(), Workspace(0, Segs(OVERSIZE), Segs(OVERSIZE));
    var f, before := SealFrame(e, iv, Zeros(OVERSIZE)), Ones(OVERSIZE);
    OpRuns(e, op, ws, m);
    RoundTrip(e, iv, Zeros(OVERSIZE), []);
    RoundTrip(e, iv, Zeros(OVERSIZE), before);
    assert f + [] == f == m.bytes[0..OVERSIZE + OVERHEAD] && m.bytes[op.dst..op.dst + OVERSIZE] == before;
    LastByteKept(e, FrameIv(f), FrameBody(f, OVERSIZE), before);
  }

  lemma LastByteKept(e: Cipher, iv: Iv, x: seq<byte>, before: seq<byte>)
    requires |x| == |before| == OVERSIZE && before == Ones(OVERSIZE)
    ensures CtrOutput(e, iv, false, x, before)[OVERSIZE - 1] == 1
  {
    assert (OVERSIZE - 1) / 16 + 2 > 0xffff_ffff;
  }
}
