/** The engine end to end: host calls, the launches they leave on the stream, and the threads that run them. */
module EndToEnd {
  import opened CudaStream
  import opened Faults
  import opened Frames
  import opened Gcm
  import opened Gpu
  import opened Host
  import opened Kernels
  import opened Launches
  import opened Operations
  import opened Streams

  // ---- Threads to operations ----

  // In each launch, some order of at least its useful threads, and something each of them may have loaded
  ghost predicate IsPlan(e: Cipher, l: Launch, m: Memory, schedule: seq<nat>, views: seq<Memory>) {
    && (forall t :: 0 <= t < ThreadCount(l) ==> t in schedule)
    && |views| == |schedule| && forall i :: 0 <= i < |views| ==> GoodLoads(l, schedule[i], m, views[i])
  }

  // Thread by thread, in any order and with any loads within each launch, an operation has its specified effect
  method RunOperation(d: Device, op: Op, ws: Workspace, schedules: seq<seq<nat>>, views: seq<seq<Memory>>)
    requires d.Valid() && Ready(op, ws, d.mem)
    requires |schedules| == |views| == |OpLaunches(op, ws)|
    requires forall i :: 0 <= i < |views| ==>
      IsPlan(d.e, OpLaunches(op, ws)[i], ExecAll(d.e, OpLaunches(op, ws)[..i], d.mem), schedules[i], views[i])
    modifies d`mem
    ensures UserOf(d.mem) == SpecOp(d.e, op, UserOf(old(d.mem)))
  {
    hide OpLaunches, ExecAll, Exec, Fits, OpFits, WorkspaceFits, SpecOp, GoodLoads, ThreadCount;
    var ls := OpLaunches(op, ws);
    ghost var m := d.mem;
    OpLaunchesFit(op, ws, m);
    ExecAllNone(d.e, m);
    for i := 0 to |ls|
      invariant d.mem == ExecAll(d.e, ls[..i], m)
    {
      ExecAllSize(d.e, ls[..i], m);
      FitsBySize(ls[i], m, d.mem);
      d.RunLaunch(ls[i], schedules[i], views[i]);
      ExecAllSnoc(d.e, ls[..i], ls[i], m);
      assert ls[..i + 1] == ls[..i] + [ls[i]];
    }
    assert ls[..|ls|] == ls;
    OpRuns(d.e, op, ws, m);
  }

  // The device works off a list of launches
  method Synchronize(d: Device, ls: seq<Launch>)
    requires d.Valid() && forall i :: 0 <= i < |ls| ==> Fits(ls[i], d.mem)
    modifies d`mem
    ensures d.mem == ExecAll(d.e, ls, old(d.mem))
  {
    hide ExecAll, Exec, Fits, GoodLoads, ThreadCount;
    ghost var m := d.mem;
    ExecAllNone(d.e, m);
    for i := 0 to |ls|
      invariant d.mem == ExecAll(d.e, ls[..i], m)
    {
      ExecAllSize(d.e, ls[..i], m);
      FitsBySize(ls[i], m, d.mem);
      var n, now := ThreadCount(ls[i]), d.mem;
      var schedule: seq<nat> := seq(n, t requires 0 <= t => t);
      var views := seq(n, t => now);
      forall t | 0 <= t < n ensures t in schedule && GoodLoads(ls[i], t, now, now) {
        assert schedule[t] == t;
        LoadsAtStart(ls[i], t, now);
      }
      d.RunLaunch(ls[i], schedule, views);
      ExecAllSnoc(d.e, ls[..i], ls[i], m);
      assert ls[..i + 1] == ls[..i] + [ls[i]];
    }
    assert ls[..|ls|] == ls;
  }

  lemma LoadsAtStart(l: Launch, t: nat, m: Memory)
    ensures GoodLoads(l, t, m, m)
  {}

  // ---- Host calls to operations ----

  // An allocation that is granted lies in the nodes of m
  predicate AnswerFits(answer: Option<nat>, size: nat, m: Memory) { answer.Some? ==> answer.value + size <= |m.nodes| }

  // The frame of the text at src written at dst, and nothing else changed
  function Framed(e: Cipher, u: User, src: nat, len: nat, dst: nat, iv: Iv): User
    requires src + len <= |u.bytes| && dst + len + 29 <= |u.bytes|
  {
    User(Splice(u.bytes, dst, SealFrame(e, iv, u.bytes[src..src + len])), u.flags)
  }

  // seal_async followed by waiting for the stream, with any pointers that are good for the stated sizes. On OK the
  // frame is there. Bad arguments and a refused workspace leave the device alone; after a launch error what was
  // enqueued still runs, but within the frame.
  method SealAndWait(d: Device, key: KeyHandle, heap: Heap, stream: Stream, src: nat, len: nat, dst: nat,
                     dstCapacity: nat, iv: Iv, answerA: Option<nat>, answerB: Option<nat>)
    returns (rc: ReturnCode)
    requires d.Valid() && key.Owns(heap) && src + len <= |d.mem.bytes| && dst + dstCapacity <= |d.mem.bytes|
    requires Apart(src, len, dst, dstCapacity)
    requires key.InNodes(d.mem) && AnswerFits(answerA, Segs(len), d.mem) && AnswerFits(answerB, Segs(len), d.mem)
    modifies d`mem, key, heap, stream
    ensures key.Kept(heap)
    ensures rc == Answered(len + 29 <= dstCapacity && CipherBlocks(len) <= 0xffff_fffe,
                           key.Granted(heap, len, answerA, answerB),
                           Smooth(old(stream.Now()), SealTotal(len), stream.answers))
    ensures rc == OK ==> UserOf(d.mem) == Framed(d.e, UserOf(old(d.mem)), src, len, dst, iv)
    ensures rc == OK ==> |d.mem.bytes| == |old(d.mem).bytes| && d.mem.bytes[dst] == 1
    ensures rc in {ERR_ARGUMENT, ERR_ALLOC} ==> d.mem == old(d.mem)
    ensures rc == ERR_CUDA ==> StaysIn(UserOf(old(d.mem)), UserOf(d.mem), Target(dst, len + OVERHEAD, {}))
  {
    hide KeyHandle.Valid, KeyHandle.Owned, Heap.Valid, Framed, StaysIn, Smooth, SealTotal, Segs, Room, SpecOp;
    ghost var was := d.mem;
    rc := SealThenRun(d, key, heap, stream, src, len, dst, dstCapacity, iv, answerA, answerB);
    if rc == OK { SealedIs(d.e, src, len, dst, iv, was); }
  }

  lemma SealedIs(e: Cipher, src: nat, len: nat, dst: nat, iv: Iv, m: Memory)
    requires OpFits(SealOp(src, len, dst, iv), m) && OpFits(SealOp(src, len, dst, iv), Memory(m.bytes, m.flags, []))
    ensures var u := SpecOp(e, SealOp(src, len, dst, iv), UserOf(m));
      && u == Framed(e, UserOf(m), src, len, dst, iv)
      && |u.bytes| == |m.bytes| && u.bytes[dst] == 1
  {
    hide SealFrame;
    FrameLayout(e, iv, m.bytes[src..src + len]);
  }

  // The same against the specification of a seal
  method SealThenRun(d: Device, key: KeyHandle, heap: Heap, stream: Stream, src: nat, len: nat, dst: nat,
                     dstCapacity: nat, iv: Iv, answerA: Option<nat>, answerB: Option<nat>)
    returns (rc: ReturnCode)
    requires d.Valid() && key.Owns(heap) && src + len <= |d.mem.bytes| && dst + dstCapacity <= |d.mem.bytes|
    requires Apart(src, len, dst, dstCapacity)
    requires key.InNodes(d.mem) && AnswerFits(answerA, Segs(len), d.mem) && AnswerFits(answerB, Segs(len), d.mem)
    modifies d`mem, key, heap, stream
    ensures key.Kept(heap)
    ensures rc == Answered(len + 29 <= dstCapacity && CipherBlocks(len) <= 0xffff_fffe,
                           key.Granted(heap, len, answerA, answerB),
                           Smooth(old(stream.Now()), SealTotal(len), stream.answers))
    ensures rc == OK ==>
      && OpFits(SealOp(src, len, dst, iv), old(d.mem))
      && OpFits(SealOp(src, len, dst, iv), Memory(old(d.mem).bytes, old(d.mem).flags, []))
      && UserOf(d.mem) == SpecOp(d.e, SealOp(src, len, dst, iv), UserOf(old(d.mem)))
    ensures rc in {ERR_ARGUMENT, ERR_ALLOC} ==> d.mem == old(d.mem)
    ensures rc == ERR_CUDA ==> StaysIn(UserOf(old(d.mem)), UserOf(d.mem), Target(dst, len + OVERHEAD, {}))
  {
    hide OpLaunches, ExecAll, SpecOp, KeyHandle.Valid, KeyHandle.Owned, Heap.Valid, Fits, StaysIn, OpPart, Smooth;
    hide Issued, SealTotal, Segs, Room;
    var enqueued := |stream.log|;
    WsInNodes(key, d.mem);
    rc := SealAsync(key, heap, stream, Some(src), len, Some(dst), dstCapacity, Some(iv), answerA, answerB);
    if rc == OK || rc == ERR_CUDA {
      ghost var op := SealOp(src, len, dst, iv);
      assert OpFits(op, d.mem) && OpFits(op, Memory(d.mem.bytes, d.mem.flags, []));
      InNodesByWs(key, d.mem);
      ReadyAfter(key, heap, op, d.mem);
      WorkOff(d, op, key.Ws(), stream.log[enqueued..], rc == OK);
    }
  }

  // open_async followed by waiting for the stream. After a launch error nothing but destination and flag has moved,
  // and if the caller cleared the flag first the destination shows nothing of a frame that has not passed.
  method OpenAndWait(d: Device, key: KeyHandle, heap: Heap, stream: Stream, src: nat, frameLen: nat, dst: nat, len: nat,
                     flag: nat, answerA: Option<nat>, answerB: Option<nat>)
    returns (rc: ReturnCode)
    requires d.Valid() && key.Owns(heap) && src + frameLen <= |d.mem.bytes| && dst + len <= |d.mem.bytes|
    requires Apart(src, frameLen, dst, len) && flag < |d.mem.flags| && len + 29 < 0x1_0000_0000_0000_0000
    requires key.InNodes(d.mem) && AnswerFits(answerA, Segs(len), d.mem) && AnswerFits(answerB, Segs(len), d.mem)
    modifies d`mem, key, heap, stream
    ensures key.Kept(heap)
    ensures rc == Answered(len + 29 <= frameLen, key.Granted(heap, len, answerA, answerB),
                           Smooth(old(stream.Now()), OpenTotal(len), stream.answers))
    ensures rc in {OK, ERR_CUDA} ==> OpFits(OpenOp(src, len, dst, flag), Memory(old(d.mem).bytes, old(d.mem).flags, []))
    ensures rc == OK ==> UserOf(d.mem) == SpecOp(d.e, OpenOp(src, len, dst, flag), UserOf(old(d.mem)))
    ensures rc in {ERR_ARGUMENT, ERR_ALLOC} ==> d.mem == old(d.mem)
    ensures rc == ERR_CUDA ==> StaysIn(UserOf(old(d.mem)), UserOf(d.mem), Target(dst, len, {flag}))
    ensures rc == ERR_CUDA && old(d.mem).flags[flag] == 0 ==>
      AllSafe(d.e, OpenOp(src, len, dst, flag), UserOf(old(d.mem)), UserOf(d.mem))
  {
    hide OpLaunches, ExecAll, KeyHandle.Valid, KeyHandle.Owned, Heap.Valid, Fits, StaysIn, SpecOp, AllSafe, Smooth;
    hide Issued, OpenTotal, Segs, Room;
    var enqueued := |stream.log|;
    WsInNodes(key, d.mem);
    rc := OpenAsync(key, heap, stream, Some(src), frameLen, Some(dst), len, Some(flag), answerA, answerB);
    if rc == OK || rc == ERR_CUDA {
      ghost var op, was := OpenOp(src, len, dst, flag), d.mem;
      assert OpFits(op, d.mem) && OpFits(op, Memory(d.mem.bytes, d.mem.flags, []));
      InNodesByWs(key, d.mem);
      ReadyAfter(key, heap, op, d.mem);
      WorkOff(d, op, key.Ws(), stream.log[enqueued..], rc == OK);
      if rc == ERR_CUDA && was.flags[flag] == 0 { PartIsSafe(d.e, op, key.Ws(), was, stream.log[enqueued..]); }
    }
  }

  ghost predicate AllSafe(e: Cipher, op: Op, start: User, now: User)
    requires op.OpenOp? && OpFits(op, Memory(start.bytes, start.flags, []))
  {
    && |start.bytes| == |now.bytes| && |start.flags| == |now.flags|
    && forall j :: 0 <= j < op.len ==> Safe(e, op, start, now, j)
  }

  lemma PartIsSafe(e: Cipher, op: Op, ws: Workspace, m: Memory, s: seq<Launch>)
    requires op.OpenOp? && Ready(op, ws, m) && OpenPart(op, ws, s) && m.flags[op.flag] == 0
    ensures OpFits(op, Memory(m.bytes, m.flags, [])) && AllSafe(e, op, UserOf(m), UserOf(ExecAll(e, s, m)))
  {
    hide OpFits, WorkspaceFits, OpenPart, Midway, Safe, ExecAll;
    OpFitsUser(op, m);
    EndIsMidway(e, s, m);
    ExecAllSize(e, s, m);
    forall j | 0 <= j < op.len ensures Safe(e, op, UserOf(m), UserOf(ExecAll(e, s, m)), j) {
      FaultyOpenIsSafe(e, op, ws, m, s, |s|, {}, j);
    }
  }

  // The device works off what a call has enqueued: all of it, or the part that was taken
  method WorkOff(d: Device, ghost op: Op, ghost ws: Workspace, ls: seq<Launch>, ghost all: bool)
    requires d.Valid() && Ready(op, ws, d.mem)
    requires if all then ls == OpLaunches(op, ws) else OpPart(op, ws, ls)
    modifies d`mem
    ensures d.mem == ExecAll(d.e, ls, old(d.mem))
    ensures all ==> UserOf(d.mem) == SpecOp(d.e, op, UserOf(old(d.mem)))
    ensures !all ==> StaysIn(UserOf(old(d.mem)), UserOf(d.mem), TargetOf(op))
  {
    hide OpLaunches, ExecAll, Fits, StaysIn, OpPart, SpecOp, OpFits, WorkspaceFits, Midway, TargetOf;
    OpLaunchesFit(op, ws, d.mem);
    if all {
      OpRuns(d.e, op, ws, d.mem);
    } else {
      PartIn(op, ws, ls);
      FaultyOpStaysIn(d.e, op, ws, d.mem, ls, |ls|, {});
      EndIsMidway(d.e, ls, d.mem);
    }
    forall i | 0 <= i < |ls| ensures Fits(ls[i], d.mem) {
      assert ls[i] in ls && ls[i] in OpLaunches(op, ws);
    }
    Synchronize(d, ls);
  }

  // The same about the handle and about its workspace
  predicate WsIn(ws: Workspace, m: Memory) {
    ws.capacity > 0 ==> ws.a + ws.capacity <= |m.nodes| && ws.b + ws.capacity <= |m.nodes|
  }

  lemma WsInNodes(key: KeyHandle, m: Memory)
    requires key.Valid() && key.InNodes(m)
    ensures WsIn(key.Ws(), m)
  {}

  lemma InNodesByWs(key: KeyHandle, m: Memory)
    requires key.Valid() && WsIn(key.Ws(), m)
    ensures key.InNodes(m)
  {}

  lemma ReadyAfter(key: KeyHandle, heap: Heap, op: Op, m: Memory)
    requires key.Owns(heap) && key.InNodes(m) && OpFits(op, m) && Segs(op.len) <= key.nodeCapacity
    ensures Ready(op, key.Ws(), m)
  {
    hide OpFits;
    key.WsFits(heap, m);
  }

  // ensure_workspace on the heap is the transition of the state machine, provided growth waits for the device
  method EnsureIsStep(key: KeyHandle, heap: Heap, len: nat, answerA: Option<nat>, answerB: Option<nat>, ghost s: State)
    returns (rc: ReturnCode)
    requires key.Owns(heap) && s.ws == key.Ws() && key.InNodes(s.mem)
    requires AnswerFits(answerA, Segs(len), s.mem) && AnswerFits(answerB, Segs(len), s.mem)
    modifies key, heap
    ensures key.Owns(heap) && key.InNodes(s.mem)
    ensures Ensure(false, s, len, key.Ws(), rc == OK)
    ensures Drained(s) || Segs(len) <= old(key.nodeCapacity) ==> Ensure(true, s, len, key.Ws(), rc == OK)
  {
    hide Heap.Valid, Segs;
    rc := key.EnsureWorkspace(heap, len, answerA, answerB);
    key.WsFits(heap, s.mem);
  }
}
