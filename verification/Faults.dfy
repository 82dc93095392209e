/** Calls whose launches the runtime partly rejects: what they may leave on the stream, and what that does. */
module Faults {
  import opened Bytes
  import opened Gcm
  import opened Kernels
  import opened Launches
  import opened Operations
  import opened Streams
  import opened Gate

  // s is all with some launches left out
  predicate Sub(s: seq<Launch>, all: seq<Launch>) {
    if all == [] then s == []
    else Sub(s, all[..|all| - 1]) || (s != [] && s[|s| - 1] == all[|all| - 1] && Sub(s[..|s| - 1], all[..|all| - 1]))
  }

  lemma {:induction false} SubIn(s: seq<Launch>, all: seq<Launch>)
    requires Sub(s, all)
    ensures forall l <- s :: l in all
  {
    if all != [] {
      if Sub(s, all[..|all| - 1]) {
        SubIn(s, all[..|all| - 1]);
      } else {
        SubIn(s[..|s| - 1], all[..|all| - 1]);
        assert s == s[..|s| - 1] + [s[|s| - 1]];
      }
    }
  }

  lemma {:induction false} SubAll(all: seq<Launch>)
    ensures Sub(all, all) && Sub([], all)
  {
    if all != [] { SubAll(all[..|all| - 1]); }
  }

  // One more launch, rejected or taken
  lemma SubNext(s: seq<Launch>, all: seq<Launch>, w: Launch)
    requires Sub(s, all)
    ensures Sub(s, all + [w]) && Sub(s + [w], all + [w])
  {
    assert (all + [w])[..|all|] == all && (s + [w])[..|s|] == s;
  }

  // The launches of a seal before and behind GHASH, and those of an open behind it
  function SealHead(op: Op): seq<Launch>
    requires op.SealOp?
  {
    [Header(op.dst, op.iv)] + CtrLaunches(op.src, op.dst + HEADER_LEN, op.len, op.dst + 1, None)
  }

  function SealTail(op: Op, ws: Workspace): seq<Launch>
    requires op.SealOp?
  {
    GhashLaunches(op.dst + HEADER_LEN, op.len, ws) + [Finalize(op.dst, op.len, GhashRoot(op.len, ws))]
  }

  function OpenGhash(op: Op, ws: Workspace): seq<Launch>
    requires op.OpenOp?
  {
    GhashLaunches(op.src + HEADER_LEN, op.len, ws)
  }

  function OpenCtrs(op: Op): seq<Launch>
    requires op.OpenOp?
  {
    CtrLaunches(op.src + HEADER_LEN, op.dst, op.len, op.src + 1, Some(op.flag))
  }

  function OpenTail(op: Op, ws: Workspace): seq<Launch>
    requires op.OpenOp?
  {
    [Verify(op.src, op.len, GhashRoot(op.len, ws), op.flag)] + OpenCtrs(op)
  }

  lemma SealIs(op: Op, ws: Workspace)
    requires op.SealOp?
    ensures OpLaunches(op, ws) == SealHead(op) + SealTail(op, ws)
  {
    hide CtrLaunches, GhashLaunches, GhashRoot;
  }

  lemma OpenIs(op: Op, ws: Workspace)
    requires op.OpenOp?
    ensures OpLaunches(op, ws) == OpenGhash(op, ws) + OpenTail(op, ws)
  {
    hide CtrLaunches, GhashLaunches, GhashRoot;
  }

  // Header and CTR are not checked one by one: either may be missing, and then at most one launch follows
  ghost predicate SealPart(op: Op, ws: Workspace, s: seq<Launch>)
    requires op.SealOp?
  {
    exists h, g :: s == h + g && Sub(h, SealHead(op)) && g <= SealTail(op, ws) && (h == SealHead(op) || |g| <= 1)
  }

  // GHASH is checked launch by launch, but verify and CTR only together: either may be missing
  ghost predicate OpenPart(op: Op, ws: Workspace, s: seq<Launch>)
    requires op.OpenOp?
  {
    exists g, t ::
      s == g + t && g <= OpenGhash(op, ws) && Sub(t, OpenTail(op, ws)) && (g == OpenGhash(op, ws) || t == [])
  }

  ghost predicate OpPart(op: Op, ws: Workspace, s: seq<Launch>) {
    if op.SealOp? then SealPart(op, ws, s) else OpenPart(op, ws, s)
  }

  lemma PartIn(op: Op, ws: Workspace, s: seq<Launch>)
    requires OpPart(op, ws, s)
    ensures forall l <- s :: l in OpLaunches(op, ws)
  {
    hide SealHead, SealTail, OpenGhash, OpenTail, OpLaunches, Sub;
    if op.SealOp? {
      SealIs(op, ws);
      var h, g :| s == h + g && Sub(h, SealHead(op)) && g <= SealTail(op, ws) && (h == SealHead(op) || |g| <= 1);
      SubIn(h, SealHead(op));
      assert forall l <- g :: l in SealTail(op, ws);
    } else {
      OpenIs(op, ws);
      var g, t :|
        s == g + t && g <= OpenGhash(op, ws) && Sub(t, OpenTail(op, ws)) && (g == OpenGhash(op, ws) || t == []);
      SubIn(t, OpenTail(op, ws));
      assert forall l <- g :: l in OpenGhash(op, ws);
    }
  }

  // ---- Seal ----

  // The bytes and flags an operation is there to write
  datatype Target = Target(at: nat, n: nat, flags: set<nat>)

  function TargetOf(op: Op): Target {
    if op.SealOp? then Target(op.dst, op.len + OVERHEAD, {}) else Target(op.dst, op.len, {op.flag})
  }

  // Nothing else differs
  ghost predicate StaysIn(u: User, v: User, t: Target) {
    && |u.bytes| == |v.bytes| && |u.flags| == |v.flags|
    && (forall a :: 0 <= a < |u.bytes| && !(t.at <= a < t.at + t.n) ==> v.bytes[a] == u.bytes[a])
    && (forall p :: 0 <= p < |u.flags| && p !in t.flags ==> v.flags[p] == u.flags[p])
  }

  predicate WritesIn(l: Launch, t: Target) {
    match l
    case Header(frame, iv) => t.at <= frame && frame + HEADER_LEN <= t.at + t.n
    case Ctr(src, dst, len, ivAt, gate) => t.at <= dst && dst + len <= t.at + t.n
    case Finalize(frame, len, root) => t.at <= frame && frame + len + OVERHEAD <= t.at + t.n
    case Verify(frame, len, root, flag) => flag in t.flags
    case _ => true
  }

  lemma ExecStaysIn(e: Cipher, l: Launch, m: Memory, t: Target)
    requires WritesIn(l, t)
    ensures StaysIn(UserOf(m), UserOf(Exec(e, l, m)), t)
  {
    hide Exec;
    ExecWithin(e, l, m);
  }

  lemma PartialStaysIn(e: Cipher, l: Launch, m: Memory, done: set<Cell>, t: Target)
    requires WritesIn(l, t)
    ensures StaysIn(UserOf(m), UserOf(Partial(e, l, m, done)), t)
  {
    hide Exec, WritesIn;
    ExecStaysIn(e, l, m, t);
  }

  lemma {:induction false} RunStaysIn(e: Cipher, s: seq<Launch>, m: Memory, t: Target)
    requires forall l <- s :: WritesIn(l, t)
    ensures StaysIn(UserOf(m), UserOf(ExecAll(e, s, m)), t)
  {
    hide Exec, WritesIn;
    if s == [] {
      ExecAllNone(e, m);
    } else {
      var front, last := s[..|s| - 1], s[|s| - 1];
      assert s == front + [last];
      RunStaysIn(e, front, m, t);
      ExecAllSnoc(e, front, last, m);
      ExecStaysIn(e, last, ExecAll(e, front, m), t);
    }
  }

  lemma OpWritesIn(op: Op, ws: Workspace)
    ensures forall l <- OpLaunches(op, ws) :: WritesIn(l, TargetOf(op))
  {
    CombinesNodesOnly(ws.a, ws.b, Segs(op.len));
  }

  // Whatever the runtime rejects, and however far the device has come with the rest, an operation touches nothing
  // but its destination and its flag
  lemma FaultyOpStaysIn(e: Cipher, op: Op, ws: Workspace, m: Memory, s: seq<Launch>, k: nat, done: set<Cell>)
    requires OpPart(op, ws, s) && k <= |s|
    ensures StaysIn(UserOf(m), UserOf(Midway(e, s, m, k, done)), TargetOf(op))
  {
    hide OpLaunches, OpPart, WritesIn, ExecAll, Partial, StaysIn;
    var t := TargetOf(op);
    PartIn(op, ws, s);
    OpWritesIn(op, ws);
    assert forall l <- s[..k] :: l in s;
    RunStaysIn(e, s[..k], m, t);
    if k < |s| {
      assert s[k] in s;
      PartialStaysIn(e, s[k], ExecAll(e, s[..k], m), done, t);
      StaysInTwice(UserOf(m), UserOf(ExecAll(e, s[..k], m)), UserOf(Midway(e, s, m, k, done)), t);
    }
  }

  lemma StaysInTwice(u: User, v: User, w: User, t: Target)
    requires StaysIn(u, v, t) && StaysIn(v, w, t)
    ensures StaysIn(u, w, t)
  {}

  // ---- Open ----

  // A destination byte shows nothing of a frame that has not passed
  ghost predicate Safe(e: Cipher, op: Op, start: User, now: User, j: nat)
    requires op.OpenOp? && OpFits(op, Memory(start.bytes, start.flags, [])) && j < op.len
    requires |start.bytes| == |now.bytes| && |start.flags| == |now.flags|
  {
    var frame := start.bytes[op.src..op.src + op.len + OVERHEAD];
    var current := now.bytes[op.dst + j];
    || current == start.bytes[op.dst + j] || current == 0
    || (Accepts(e, frame, op.len) && now.flags[op.flag] == 1
        && current == OpenOutput(e, frame, op.len, start.bytes[op.dst..op.dst + op.len])[j])
  }

  lemma GatedIsSafe(e: Cipher, op: Op, ws: Workspace, start: User, now: User, k: nat, j: nat)
    requires op.OpenOp? && OpFits(op, Memory(start.bytes, start.flags, [])) && j < op.len
    requires |start.bytes| == |now.bytes| && |start.flags| == |now.flags| && Gated(e, op, ws, start, now, k, j)
    ensures Safe(e, op, start, now, j)
  {
    hide OpLaunches, Accepts, VerifyEnd, CtrOutput;
    var frame, before := start.bytes[op.src..op.src + op.len + OVERHEAD], start.bytes[op.dst..op.dst + op.len];
    if !Accepts(e, frame, op.len) { OpenOutputRejected(e, frame, op.len, before); }
  }

  // The four shapes of what an open may leave on the stream
  lemma OpenShapes(op: Op, ws: Workspace, s: seq<Launch>)
    requires op.OpenOp? && OpenPart(op, ws, s)
    ensures s <= OpLaunches(op, ws) || s == OpenGhash(op, ws) + OpenCtrs(op)
  {
    hide OpLaunches, GhashLaunches, GhashRoot, CtrLaunches;
    OpenIs(op, ws);
    var g, t :| s == g + t && g <= OpenGhash(op, ws) && Sub(t, OpenTail(op, ws)) && (g == OpenGhash(op, ws) || t == []);
    TailShapes(op, ws, t);
    if t == [] { assert s == g; }
  }

  lemma TailShapes(op: Op, ws: Workspace, t: seq<Launch>)
    requires op.OpenOp? && Sub(t, OpenTail(op, ws))
    ensures t == [] || t == OpenTail(op, ws)[..1] || t == OpenCtrs(op) || t == OpenTail(op, ws)
  {
    hide GhashRoot, Sub;
    var v := Verify(op.src, op.len, GhashRoot(op.len, ws), op.flag);
    if OpenCtrs(op) == [] {
      assert OpenTail(op, ws) == [v];
      SubOne(t, v);
    } else {
      assert OpenTail(op, ws) == [v] + OpenCtrs(op) == [v, OpenCtrs(op)[0]];
      SubTwo(t, v, OpenCtrs(op)[0]);
    }
  }

  lemma SubOne(t: seq<Launch>, v: Launch)
    requires Sub(t, [v])
    ensures t == [] || t == [v]
  {
    assert [v] == [] + [v];
    SubLast(t, [], v);
    if !Sub(t, []) { assert t == t[..|t| - 1] + [v]; }
  }

  lemma SubTwo(t: seq<Launch>, v: Launch, w: Launch)
    requires Sub(t, [v, w])
    ensures t == [] || t == [v] || t == [w] || t == [v, w]
  {
    hide Sub;
    assert [v, w] == [v] + [w];
    SubLast(t, [v], w);
    if Sub(t, [v]) {
      SubOne(t, v);
    } else {
      SubOne(t[..|t| - 1], v);
      assert t == t[..|t| - 1] + [w];
    }
  }

  lemma SubLast(t: seq<Launch>, all: seq<Launch>, w: Launch)
    requires Sub(t, all + [w])
    ensures Sub(t, all) || (t != [] && t[|t| - 1] == w && Sub(t[..|t| - 1], all))
  {
    assert (all + [w])[..|all|] == all;
  }

  // What CTR makes of a frame, passed or not, written over the destination
  function CtrOver(e: Cipher, op: Op, u: User, shut: bool): User
    requires op.OpenOp? && OpFits(op, Memory(u.bytes, u.flags, []))
  {
    var frame := u.bytes[op.src..op.src + op.len + OVERHEAD];
    var before := u.bytes[op.dst..op.dst + op.len];
    u.(bytes := Splice(u.bytes, op.dst, CtrOutput(e, FrameIv(frame), shut, FrameBody(frame, op.len), before)))
  }

  // GHASH and then CTR on the flag as the caller left it
  lemma UnverifiedOpen(e: Cipher, op: Op, ws: Workspace, m: Memory)
    requires op.OpenOp? && Ready(op, ws, m)
    ensures OpFits(op, Memory(m.bytes, m.flags, []))
    ensures UserOf(ExecAll(e, OpenGhash(op, ws) + OpenCtrs(op), m)) == CtrOver(e, op, UserOf(m), m.flags[op.flag] == 0)
  {
    hide ExecAll, OpenGhash, OpenCtrs, OpFits, WorkspaceFits, CtrOver;
    OpFitsUser(op, m);
    var hashed := ExecAll(e, OpenGhash(op, ws), m);
    GhashKeepsUser(e, op, ws, m);
    ExecAllAppend(e, OpenGhash(op, ws), OpenCtrs(op), m);
    OpFitsUser(op, hashed);
    UngatedCtr(e, op, hashed);
  }

  lemma GhashKeepsUser(e: Cipher, op: Op, ws: Workspace, m: Memory)
    requires op.OpenOp? && Ready(op, ws, m)
    ensures var hashed := ExecAll(e, OpenGhash(op, ws), m); SameSizes(m, hashed) && UserOf(hashed) == UserOf(m)
    ensures OpFits(op, ExecAll(e, OpenGhash(op, ws), m))
  {
    hide ExecAll, GhashLaunches, GhashRoot, HoldsHash;
    GhashRuns(e, op.src + HEADER_LEN, op.len, ws, m);
  }

  lemma UngatedCtr(e: Cipher, op: Op, m: Memory)
    requires op.OpenOp? && OpFits(op, m) && OpFits(op, Memory(m.bytes, m.flags, []))
    ensures UserOf(ExecAll(e, OpenCtrs(op), m)) == CtrOver(e, op, UserOf(m), m.flags[op.flag] == 0)
  {
    hide CtrOutput, ExecAll, CtrLaunches, Splice;
    FrameParts(op, m);
    CtrStep(e, op.src + HEADER_LEN, op.dst, op.len, op.src + 1, Some(op.flag), m);
  }

  lemma FrameParts(op: Op, m: Memory)
    requires op.OpenOp? && OpFits(op, m)
    ensures var frame := m.bytes[op.src..op.src + op.len + OVERHEAD];
      && FrameIv(frame) == IvAt(m, op.src + 1)
      && FrameBody(frame, op.len) == m.bytes[op.src + HEADER_LEN..op.src + HEADER_LEN + op.len]
  {
    SliceOfSlice(m.bytes, op.src, op.len + OVERHEAD, HEADER_LEN, HEADER_LEN + op.len);
    SliceOfSlice(m.bytes, op.src, op.len + OVERHEAD, 1, HEADER_LEN);
  }

  // If the caller cleared the flag, no destination byte ever shows a frame that has not passed, whatever the runtime
  // rejects and at every moment of the rest
  lemma FaultyOpenIsSafe(e: Cipher, op: Op, ws: Workspace, m: Memory, s: seq<Launch>, k: nat, done: set<Cell>, j: nat)
    requires op.OpenOp? && Ready(op, ws, m) && OpenPart(op, ws, s) && k <= |s| && j < op.len
    requires m.flags[op.flag] == 0
    ensures SameSizes(m, Midway(e, s, m, k, done))
    ensures Safe(e, op, UserOf(m), UserOf(Midway(e, s, m, k, done)), j)
  {
    hide OpLaunches, OpenPart, Midway, Safe, OpFits, WorkspaceFits;
    OpenShapes(op, ws, s);
    OpFitsUser(op, m);
    if s <= OpLaunches(op, ws) {
      PrefixIsSafe(e, op, ws, m, s, k, done, j);
    } else {
      UnverifiedIsSafe(e, op, ws, m, k, done, j);
    }
  }

  lemma PrefixIsSafe(e: Cipher, op: Op, ws: Workspace, m: Memory, s: seq<Launch>, k: nat, done: set<Cell>, j: nat)
    requires op.OpenOp? && Ready(op, ws, m) && s <= OpLaunches(op, ws) && k <= |s| && j < op.len
    ensures SameSizes(m, Midway(e, s, m, k, done))
    ensures Safe(e, op, UserOf(m), UserOf(Midway(e, s, m, k, done)), j)
  {
    hide OpLaunches, Safe, OpFits, WorkspaceFits, Gated, ExecAll, Exec;
    var ls, done' := OpLaunches(op, ws), if k < |s| then done else {};
    OpFitsUser(op, m);
    assert s[..k] == ls[..k];
    if k == |s| && k < |ls| { PartialNone(e, ls[k], ExecAll(e, ls[..k], m)); }
    assert Midway(e, s, m, k, done) == Midway(e, ls, m, k, done');
    GatedMidway(e, op, ws, m, k, done', j);
    GatedIsSafe(e, op, ws, UserOf(m), UserOf(Midway(e, s, m, k, done)), k, j);
  }

  lemma UnverifiedIsSafe(e: Cipher, op: Op, ws: Workspace, m: Memory, k: nat, done: set<Cell>, j: nat)
    requires op.OpenOp? && Ready(op, ws, m) && j < op.len && m.flags[op.flag] == 0
    requires k <= |OpenGhash(op, ws) + OpenCtrs(op)|
    ensures SameSizes(m, Midway(e, OpenGhash(op, ws) + OpenCtrs(op), m, k, done))
    ensures Safe(e, op, UserOf(m), UserOf(Midway(e, OpenGhash(op, ws) + OpenCtrs(op), m, k, done)), j)
  {
    hide WorkspaceFits, ExecAll, Exec, GhashLaunches, OpenOutput, Accepts, OpenCtrs;
    var g, c := OpenGhash(op, ws), OpenCtrs(op);
    OpFitsUser(op, m);
    GhashesNodesOnly(op.src + HEADER_LEN, op.len, ws);
    UnverifiedZeros(e, op, ws, m, j);
    if k < |g| {
      assert (g + c)[..k] == g[..k] && (g + c)[k] == g[k];
      ExecAllNodesOnly(e, g[..k], m);
      ExecAllSize(e, g[..k], m);
      ExecNodesOnly(e, g[k], ExecAll(e, g[..k], m));
      PartialBetween(e, g[k], ExecAll(e, g[..k], m), done, op.dst + j, op.flag);
    } else if k < |g + c| {
      assert (g + c)[..k] == g && (g + c)[k] == c[0] && c == [c[0]] by { OneCtr(op); }
      ExecAllNodesOnly(e, g, m);
      ExecAllSize(e, g, m);
      ExecAllSnoc(e, g, c[0], m);
      PartialBetween(e, c[0], ExecAll(e, g, m), done, op.dst + j, op.flag);
    } else {
      assert (g + c)[..k] == g + c;
      ExecAllSize(e, g + c, m);
    }
  }

  lemma OneCtr(op: Op)
    requires op.OpenOp?
    ensures |OpenCtrs(op)| <= 1
  {}

  lemma UnverifiedZeros(e: Cipher, op: Op, ws: Workspace, m: Memory, j: nat)
    requires op.OpenOp? && Ready(op, ws, m) && j < op.len && m.flags[op.flag] == 0
    ensures |ExecAll(e, OpenGhash(op, ws) + OpenCtrs(op), m).bytes| == |m.bytes|
    ensures ExecAll(e, OpenGhash(op, ws) + OpenCtrs(op), m).bytes[op.dst + j] == 0
  {
    hide ExecAll, OpenGhash, OpenCtrs, CtrByte;
    UnverifiedOpen(e, op, ws, m);
    var frame := m.bytes[op.src..op.src + op.len + OVERHEAD];
    ShutByte(e, FrameIv(frame), FrameBody(frame, op.len)[j], j, m.bytes[op.dst + j]);
  }

  lemma ShutByte(e: Cipher, iv: Iv, source: byte, i: nat, before: byte)
    ensures CtrByte(e, iv, true, source, i, before) == 0
  {}

  // ---- When a rejected frame may show ----

  // Every byte of the destination is the old one or zero
  ghost predicate Nothing(op: Op, start: User, now: User)
    requires op.OpenOp? && op.dst + op.len <= |start.bytes| == |now.bytes|
  {
    forall j :: 0 <= j < op.len ==> OldOrZero(op, start, now, j)
  }

  predicate OldOrZero(op: Op, start: User, now: User, j: nat)
    requires op.OpenOp? && op.dst + op.len <= |start.bytes| == |now.bytes| && j < op.len
  {
    now.bytes[op.dst + j] == start.bytes[op.dst + j] || now.bytes[op.dst + j] == 0
  }

  // Over a flag that was not cleared, GHASH and CTR without verify publish what CTR makes of any frame: its plaintext
  // within the length bound
  lemma UnclearedOpenExposes(e: Cipher, op: Op, ws: Workspace, m: Memory)
    requires op.OpenOp? && Ready(op, ws, m) && m.flags[op.flag] != 0
    ensures OpenPart(op, ws, OpenGhash(op, ws) + OpenCtrs(op))
    ensures OpFits(op, Memory(m.bytes, m.flags, []))
    ensures UserOf(ExecAll(e, OpenGhash(op, ws) + OpenCtrs(op), m)) == CtrOver(e, op, UserOf(m), false)
    ensures CipherBlocks(op.len) <= MAX_BLOCKS ==>
      CtrOver(e, op, UserOf(m), false).bytes ==
      Splice(m.bytes, op.dst, Plaintext(e, m.bytes[op.src..op.src + op.len + OVERHEAD], op.len))
  {
    hide ExecAll, WorkspaceFits, OpFits, OpenGhash, OpenCtrs, CtrOver, Plaintext, GhashRoot, Splice;
    UnverifiedOpen(e, op, ws, m);
    if CipherBlocks(op.len) <= MAX_BLOCKS { ExposedIsPlaintext(e, op, m); }
    SubAll(OpenCtrs(op));
    SubBehind(OpenCtrs(op), Verify(op.src, op.len, GhashRoot(op.len, ws), op.flag));
  }

  lemma ExposedIsPlaintext(e: Cipher, op: Op, m: Memory)
    requires op.OpenOp? && OpFits(op, Memory(m.bytes, m.flags, [])) && CipherBlocks(op.len) <= MAX_BLOCKS
    ensures CtrOver(e, op, UserOf(m), false).bytes
         == Splice(m.bytes, op.dst, Plaintext(e, m.bytes[op.src..op.src + op.len + OVERHEAD], op.len))
  {
    hide CtrOutput, Crypt;
    var frame := m.bytes[op.src..op.src + op.len + OVERHEAD];
    CtrOutputIsCrypt(e, FrameIv(frame), FrameBody(frame, op.len), m.bytes[op.dst..op.dst + op.len]);
  }

  lemma {:induction false} SubBehind(all: seq<Launch>, first: Launch)
    ensures Sub(all, [first] + all)
  {
    if all != [] {
      SubBehind(all[..|all| - 1], first);
      assert ([first] + all)[..|all|] == [first] + all[..|all| - 1];
    } else {
      assert ([first] + all)[..0] == [];
    }
  }

  // The exact condition: with some launches rejected, nothing of a frame that fails is ever left in the destination
  // if and only if the caller cleared the flag, or what CTR makes of it is all old bytes and zeros anyway
  lemma RejectedFrameShows(e: Cipher, op: Op, ws: Workspace, m: Memory)
    requires op.OpenOp? && Ready(op, ws, m)
    requires !Accepts(e, m.bytes[op.src..op.src + op.len + OVERHEAD], op.len)
    ensures OpFits(op, Memory(m.bytes, m.flags, []))
    ensures (forall s | OpenPart(op, ws, s) :: LeavesNothing(e, op, m, s))
      <==> (m.flags[op.flag] == 0 || Nothing(op, UserOf(m), CtrOver(e, op, UserOf(m), false)))
  {
    hide WorkspaceFits, OpenPart, Nothing, Accepts, OpenGhash, OpenCtrs, LeavesNothing;
    OpFitsUser(op, m);
    var bad := OpenGhash(op, ws) + OpenCtrs(op);
    if m.flags[op.flag] != 0 {
      UnclearedOpenExposes(e, op, ws, m);
      LeavesExposed(e, op, ws, m);
    }
    if m.flags[op.flag] == 0 || Nothing(op, UserOf(m), CtrOver(e, op, UserOf(m), false)) {
      forall s | OpenPart(op, ws, s) ensures LeavesNothing(e, op, m, s) { NothingLeft(e, op, ws, m, s); }
    }
  }

  ghost predicate LeavesNothing(e: Cipher, op: Op, m: Memory, s: seq<Launch>)
    requires op.OpenOp? && OpFits(op, m)
  {
    ExecAllSize(e, s, m);
    Nothing(op, UserOf(m), UserOf(ExecAll(e, s, m)))
  }

  lemma LeavesExposed(e: Cipher, op: Op, ws: Workspace, m: Memory)
    requires op.OpenOp? && Ready(op, ws, m) && OpFits(op, Memory(m.bytes, m.flags, []))
    requires UserOf(ExecAll(e, OpenGhash(op, ws) + OpenCtrs(op), m)) == CtrOver(e, op, UserOf(m), false)
    ensures LeavesNothing(e, op, m, OpenGhash(op, ws) + OpenCtrs(op))
      <==> Nothing(op, UserOf(m), CtrOver(e, op, UserOf(m), false))
  {
    hide CtrOver, ExecAll, Nothing, OpenGhash, OpenCtrs;
  }

  lemma NothingLeft(e: Cipher, op: Op, ws: Workspace, m: Memory, s: seq<Launch>)
    requires op.OpenOp? && Ready(op, ws, m) && OpenPart(op, ws, s)
    requires OpFits(op, Memory(m.bytes, m.flags, []))
    requires !Accepts(e, m.bytes[op.src..op.src + op.len + OVERHEAD], op.len)
    requires m.flags[op.flag] == 0 || Nothing(op, UserOf(m), CtrOver(e, op, UserOf(m), false))
    ensures LeavesNothing(e, op, m, s)
  {
    hide WorkspaceFits, OpenPart, Accepts, CtrOver, ExecAll, OpLaunches, OpenGhash, OpenCtrs, Midway, Plaintext;
    OpenShapes(op, ws, s);
    if !(s <= OpLaunches(op, ws)) && m.flags[op.flag] != 0 {
      UnclearedOpenExposes(e, op, ws, m);
      LeavesExposed(e, op, ws, m);
    } else {
      forall j | 0 <= j < op.len ensures AtEndSafe(e, op, m, s, j) {
        if s <= OpLaunches(op, ws) {
          PrefixIsSafe(e, op, ws, m, s, |s|, {}, j);
        } else {
          UnverifiedIsSafe(e, op, ws, m, |s|, {}, j);
        }
        EndIsMidway(e, s, m);
      }
      SafeIsNothing(e, op, m, s);
    }
  }

  ghost predicate AtEndSafe(e: Cipher, op: Op, m: Memory, s: seq<Launch>, j: nat)
    requires op.OpenOp? && OpFits(op, Memory(m.bytes, m.flags, [])) && j < op.len
  {
    ExecAllSize(e, s, m);
    Safe(e, op, UserOf(m), UserOf(ExecAll(e, s, m)), j)
  }

  lemma EndIsMidway(e: Cipher, s: seq<Launch>, m: Memory)
    ensures Midway(e, s, m, |s|, {}) == ExecAll(e, s, m)
  {
    assert s[..|s|] == s;
  }

  lemma SafeIsNothing(e: Cipher, op: Op, m: Memory, s: seq<Launch>)
    requires op.OpenOp? && OpFits(op, m) && OpFits(op, Memory(m.bytes, m.flags, []))
    requires !Accepts(e, m.bytes[op.src..op.src + op.len + OVERHEAD], op.len)
    requires forall j :: 0 <= j < op.len ==> AtEndSafe(e, op, m, s, j)
    ensures LeavesNothing(e, op, m, s)
  {
    hide Accepts, ExecAll, OpenOutput;
    ExecAllSize(e, s, m);
    forall j | 0 <= j < op.len ensures OldOrZero(op, UserOf(m), UserOf(ExecAll(e, s, m)), j) {
      assert AtEndSafe(e, op, m, s, j);
    }
  }
}
