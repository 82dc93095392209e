/** Authentication-gated publication: what an observer of device memory sees while an open is running. */
module Gate {
  import opened GhashTree
  import opened Gcm
  import opened Kernels
  import opened Launches
  import opened Operations
  import opened Streams

  predicate NodesOnly(l: Launch) { l.Segment? || l.Combine? }

  lemma {:induction false} CombinesNodesOnly(input: nat, output: nat, count: nat)
    ensures forall i :: 0 <= i < |CombineLaunches(input, output, count)| ==>
      NodesOnly(CombineLaunches(input, output, count)[i])
    decreases count
  {
    if count > 1 { CombinesNodesOnly(output, input, CeilDiv(count, 2)); }
  }

  lemma ExecNodesOnly(e: Cipher, l: Launch, m: Memory)
    requires NodesOnly(l)
    ensures UserOf(Exec(e, l, m)) == UserOf(m)
  {}

  lemma {:induction false} ExecAllNodesOnly(e: Cipher, ls: seq<Launch>, m: Memory)
    requires forall i :: 0 <= i < |ls| ==> NodesOnly(ls[i])
    ensures UserOf(ExecAll(e, ls, m)) == UserOf(m)
  {
    hide Exec;
    if ls != [] {
      ExecAllNodesOnly(e, ls[..|ls| - 1], m);
      ExecAllSnoc(e, ls[..|ls| - 1], ls[|ls| - 1], m);
      assert ls == ls[..|ls| - 1] + [ls[|ls| - 1]];
      ExecNodesOnly(e, ls[|ls| - 1], ExecAll(e, ls[..|ls| - 1], m));
    }
  }

  // Number of launches of an open up to and including the verify kernel
  function VerifyEnd(op: Op, ws: Workspace): nat { |GhashLaunches(op.src + HEADER_LEN, op.len, ws)| + 1 }

  // What the observer may see of destination byte j and of the flag, k launches into an open
  ghost predicate Gated(e: Cipher, op: Op, ws: Workspace, start: User, now: User, k: nat, j: nat)
    requires op.OpenOp? && OpFits(op, Memory(start.bytes, start.flags, [])) && j < op.len
    requires |start.bytes| == |now.bytes| && |start.flags| == |now.flags|
  {
    var frame := start.bytes[op.src..op.src + op.len + OVERHEAD];
    var before := start.bytes[op.dst..op.dst + op.len];
    var out := OpenOutput(e, frame, op.len, before);
    var current := now.bytes[op.dst + j];
    && (k < VerifyEnd(op, ws) ==> current == before[j])
    && (k >= VerifyEnd(op, ws) ==> now.flags[op.flag] == if Accepts(e, frame, op.len) then 1 else 0)
    && (current == before[j] || current == out[j])
    && (k == |OpLaunches(op, ws)| ==> current == out[j])
  }

  lemma PartialBetween(e: Cipher, l: Launch, m: Memory, done: set<Cell>, a: nat, p: nat)
    requires a < |m.bytes| && p < |m.flags|
    ensures Partial(e, l, m, done).bytes[a] in {m.bytes[a], Exec(e, l, m).bytes[a]}
    ensures Partial(e, l, m, done).flags[p] in {m.flags[p], Exec(e, l, m).flags[p]}
  {}

  // While GHASH and the verify kernel run, no byte of the destination moves
  lemma BeforeVerdict(e: Cipher, op: Op, ws: Workspace, m: Memory, k: nat, done: set<Cell>, j: nat)
    requires op.OpenOp? && Ready(op, ws, m) && j < op.len && k < VerifyEnd(op, ws)
    ensures k < |OpLaunches(op, ws)|
    ensures SameSizes(m, Midway(e, OpLaunches(op, ws), m, k, done))
    ensures Gated(e, op, ws, UserOf(m), UserOf(Midway(e, OpLaunches(op, ws), m, k, done)), k, j)
  {
    hide OpenOutput, Accepts, GhashRoot, ExecAll, Exec, OpLaunches, GhashLaunches;
    var ls, g := OpLaunches(op, ws), GhashLaunches(op.src + HEADER_LEN, op.len, ws);
    GhashNodesOnly(op, ws);
    var base := ExecAll(e, ls[..k], m);
    assert ls[..k] == ls[..|g| + 1][..k] == g[..k];
    ExecAllSize(e, ls[..k], m);
    ExecAllNodesOnly(e, ls[..k], m);
    if k < |g| {
      assert ls[k] == g[k];
      ExecNodesOnly(e, ls[k], base);
    }
    BytesUntouched(e, ls[k], base);
    PartialBetween(e, ls[k], base, done, op.dst + j, op.flag);
  }

  lemma BytesUntouched(e: Cipher, l: Launch, m: Memory)
    requires NodesOnly(l) || l.Verify?
    ensures Exec(e, l, m).bytes == m.bytes
  {}

  lemma GhashNodesOnly(op: Op, ws: Workspace)
    requires op.OpenOp?
    ensures var ls, n := OpLaunches(op, ws), VerifyEnd(op, ws);
      && |ls| == n + (if CipherBlocks(op.len) > 0 then 1 else 0)
      && ls[n - 1].Verify?
      && (forall i :: 0 <= i < n - 1 ==> ls[i] == GhashLaunches(op.src + HEADER_LEN, op.len, ws)[i] && NodesOnly(ls[i]))
      && ls[..n] == GhashLaunches(op.src + HEADER_LEN, op.len, ws)
        + [Verify(op.src, op.len, GhashRoot(op.len, ws), op.flag)]
      && ls == ls[..n] + CtrLaunches(op.src + HEADER_LEN, op.dst, op.len, op.src + 1, Some(op.flag))
  {
    hide GhashLaunches, GhashRoot, NodesOnly;
    GhashesNodesOnly(op.src + HEADER_LEN, op.len, ws);
  }

  lemma GhashesNodesOnly(text: nat, len: nat, ws: Workspace)
    ensures forall i :: 0 <= i < |GhashLaunches(text, len, ws)| ==> NodesOnly(GhashLaunches(text, len, ws)[i])
  {
    CombinesNodesOnly(ws.a, ws.b, Segs(len));
  }

  // Memory once the verify kernel has finished
  lemma AtVerdict(e: Cipher, op: Op, ws: Workspace, m: Memory)
    requires op.OpenOp? && Ready(op, ws, m)
    ensures VerifyEnd(op, ws) <= |OpLaunches(op, ws)|
    ensures var v := ExecAll(e, OpLaunches(op, ws)[..VerifyEnd(op, ws)], m);
      && SameSizes(m, v)
      && var frame := m.bytes[op.src..op.src + op.len + OVERHEAD];
         UserOf(v) == User(m.bytes, m.flags[op.flag := if Accepts(e, frame, op.len) then 1 else 0])
  {
    hide ExecAll, Accepts, GhashLaunches, GhashRoot, OpLaunches;
    GhashNodesOnly(op, ws);
    OpenVerify(e, op.src, op.len, op.flag, ws, m);
    ExecAllAppend(e, GhashLaunches(op.src + HEADER_LEN, op.len, ws),
                  [Verify(op.src, op.len, GhashRoot(op.len, ws), op.flag)], m);
  }

  // While the gated CTR kernel runs, each byte is the old one or the final one
  lemma AfterVerdict(e: Cipher, op: Op, ws: Workspace, m: Memory, done: set<Cell>, j: nat)
    requires op.OpenOp? && Ready(op, ws, m) && j < op.len
    ensures VerifyEnd(op, ws) < |OpLaunches(op, ws)|
    ensures SameSizes(m, Midway(e, OpLaunches(op, ws), m, VerifyEnd(op, ws), done))
    ensures Gated(e, op, ws, UserOf(m), UserOf(Midway(e, OpLaunches(op, ws), m, VerifyEnd(op, ws), done)),
                  VerifyEnd(op, ws), j)
  {
    hide OpenOutput, Accepts, ExecAll, GhashLaunches, GhashRoot, OpLaunches, Exec;
    var ls, n := OpLaunches(op, ws), VerifyEnd(op, ws);
    GhashNodesOnly(op, ws);
    var v := ExecAll(e, ls[..n], m);
    AtVerdict(e, op, ws, m);
    ReadyBySize(op, ws, m, v);
    OpenCtr(e, op.src, op.len, op.dst, op.flag, v);
    ExecAllOne(e, ls[n], v);
    PartialBetween(e, ls[n], v, done, op.dst + j, op.flag);
  }

  lemma AtEnd(e: Cipher, op: Op, ws: Workspace, m: Memory, j: nat)
    requires op.OpenOp? && Ready(op, ws, m) && j < op.len
    ensures SameSizes(m, ExecAll(e, OpLaunches(op, ws), m))
    ensures Gated(e, op, ws, UserOf(m), UserOf(ExecAll(e, OpLaunches(op, ws), m)), |OpLaunches(op, ws)|, j)
  {
    hide OpenOutput, Accepts, ExecAll, GhashLaunches, GhashRoot, OpLaunches, Exec;
    GhashNodesOnly(op, ws);
    OpRuns(e, op, ws, m);
  }

  lemma GatedMidway(e: Cipher, op: Op, ws: Workspace, m: Memory, k: nat, done: set<Cell>, j: nat)
    requires op.OpenOp? && Ready(op, ws, m) && j < op.len && k <= |OpLaunches(op, ws)|
    ensures SameSizes(m, Midway(e, OpLaunches(op, ws), m, k, done))
    ensures Gated(e, op, ws, UserOf(m), UserOf(Midway(e, OpLaunches(op, ws), m, k, done)), k, j)
  {
    hide ExecAll, Partial, OpLaunches, OpFits, GhashLaunches, Gated;
    GhashNodesOnly(op, ws);
    if k < VerifyEnd(op, ws) {
      BeforeVerdict(e, op, ws, m, k, done, j);
    } else if k == VerifyEnd(op, ws) {
      AfterVerdict(e, op, ws, m, done, j);
    } else {
      AtEnd(e, op, ws, m, j);
      assert OpLaunches(op, ws)[..k] == OpLaunches(op, ws);
    }
  }

  // ---- In an asynchronous run ----

  // k launches into the n-th job; at its end only before the next job stores
  ghost predicate Reached(s: State, n: nat, k: int)
    requires n < |s.jobs|
  {
    var length := |OpLaunches(s.jobs[n].op, s.jobs[n].ws)|;
    k == s.ran - |AllLaunches(s.jobs[..n])| && 0 <= k <= length && (k == length ==> s.done == {})
  }

  // The device is in one job only
  lemma SameJob(e: Cipher, s: State, m0: Memory, n: nat, k: int, n': nat, start: Memory)
    requires Accounted(s, m0) && NoUseAfterFree(s) && OnTrack(e, s, m0, n', start) && n < |s.jobs| && Reached(s, n, k)
    ensures n' == if k < |OpLaunches(s.jobs[n].op, s.jobs[n].ws)| then n else n + 1
    ensures n' > n ==> k == |OpLaunches(s.jobs[n].op, s.jobs[n].ws)| && s.done == {}
  {
    hide OpLaunches, AllLaunches, InJob, SpecAll, Ready, OpFits, WorkspaceFits;
    JobsAt(s.jobs, n);
    if n' < |s.jobs| {
      Running(e, s, m0, n', start);
      JobsAt(s.jobs, n');
    }
    if n' <= n {
      LaunchesUpTo(s.jobs, n', n);
      if n' < n { LaunchesUpTo(s.jobs, n' + 1, n); }
    } else {
      LaunchesUpTo(s.jobs, n + 1, n');
      if n + 1 < n' {
        LaunchesUpTo(s.jobs, n + 2, n');
        JobsAt(s.jobs, n + 1);
        SomeLaunches(s.jobs[n + 1]);
      }
    }
  }

  lemma SomeLaunches(job: Job)
    ensures |OpLaunches(job.op, job.ws)| > 0
  {}

  lemma LaunchesUpTo(jobs: seq<Job>, m: nat, n: nat)
    requires m <= n <= |jobs|
    ensures |AllLaunches(jobs[..m])| <= |AllLaunches(jobs[..n])|
  {
    hide OpLaunches, AllLaunches;
    assert jobs[..n][..m] == jobs[..m];
    LaunchesPrefix(jobs[..n], m);
  }

  // At every moment of every run, from the start of an open until the next operation stores on the device
  lemma GatedPublication(e: Cipher, trace: seq<State>, n: nat, k: nat, j: nat)
    requires IsTrace(e, trace)
    requires var s := trace[|trace| - 1];
      n < |s.jobs| && s.jobs[n].op.OpenOp? && j < s.jobs[n].op.len && Reached(s, n, k)
    ensures var s := trace[|trace| - 1];
      var before := SpecAll(e, JobOps(s.jobs[..n]), UserOf(trace[0].mem));
      && OpFits(s.jobs[n].op, Memory(before.bytes, before.flags, []))
      && |before.bytes| == |s.mem.bytes| && |before.flags| == |s.mem.flags|
      && Gated(e, s.jobs[n].op, s.jobs[n].ws, before, UserOf(s.mem), k, j)
  {
    hide OpFits, SpecAll, Gated, Next, Init, OnTrack, Reached, AllLaunches;
    var s, m0 := trace[|trace| - 1], trace[0].mem;
    RunKeepsInv(e, trace);
    var n': nat, start: Memory :| OnTrack(e, s, m0, n', start);
    SameJob(e, s, m0, n, k, n', start);
    if n' == n { GatedRunning(e, s, m0, n, k, start, j); } else { GatedEnd(e, s, m0, n, k, start, j); }
  }

  lemma GatedRunning(e: Cipher, s: State, m0: Memory, n: nat, k: nat, start: Memory, j: nat)
    requires SameSizes(m0, s.mem) && Accounted(s, m0) && NoUseAfterFree(s) && n < |s.jobs| && Reached(s, n, k)
    requires OnTrack(e, s, m0, n, start) && s.jobs[n].op.OpenOp? && j < s.jobs[n].op.len
    ensures var before := SpecAll(e, JobOps(s.jobs[..n]), UserOf(m0));
      && OpFits(s.jobs[n].op, Memory(before.bytes, before.flags, []))
      && |before.bytes| == |s.mem.bytes| && |before.flags| == |s.mem.flags|
      && Gated(e, s.jobs[n].op, s.jobs[n].ws, before, UserOf(s.mem), k, j)
  {
    hide OpFits, WorkspaceFits, SpecAll, Gated, AllLaunches, Midway, AllWritten, InWorkspace, NoUseAfterFree;
    var op, ws := s.jobs[n].op, s.jobs[n].ws;
    ReadyBySize(op, ws, m0, start);
    OpFitsUser(op, start);
    GatedMidway(e, op, ws, start, k, s.done, j);
  }

  lemma GatedEnd(e: Cipher, s: State, m0: Memory, n: nat, k: nat, start: Memory, j: nat)
    requires SameSizes(m0, s.mem) && Accounted(s, m0) && NoUseAfterFree(s) && n < |s.jobs| && Reached(s, n, k)
    requires k == |OpLaunches(s.jobs[n].op, s.jobs[n].ws)|
    requires OnTrack(e, s, m0, n + 1, start) && s.jobs[n].op.OpenOp? && j < s.jobs[n].op.len
    ensures var before := SpecAll(e, JobOps(s.jobs[..n]), UserOf(m0));
      && OpFits(s.jobs[n].op, Memory(before.bytes, before.flags, []))
      && |before.bytes| == |s.mem.bytes| && |before.flags| == |s.mem.flags|
      && Gated(e, s.jobs[n].op, s.jobs[n].ws, before, UserOf(s.mem), k, j)
  {
    hide OpFits, WorkspaceFits, SpecAll, Gated, OpLaunches, AllLaunches, InJob, NoUseAfterFree, SpecOp;
    var op, before := s.jobs[n].op, SpecAll(e, JobOps(s.jobs[..n]), UserOf(m0));
    JobsAt(s.jobs, n);
    if n + 1 < |s.jobs| { StillAtStart(e, s.jobs[n + 1], start, s.done, s.mem); }
    SpecAllSizes(e, JobOps(s.jobs[..n]), UserOf(m0));
    ReadyBySize(op, s.ws, m0, Memory(before.bytes, before.flags, m0.nodes));
    OpFitsUser(op, Memory(before.bytes, before.flags, m0.nodes));
    SpecAllSnoc(e, JobOps(s.jobs[..n]), op, UserOf(m0));
    assert JobOps(s.jobs[..n + 1]) == JobOps(s.jobs[..n]) + [op];
    SpecIsGated(e, op, s.jobs[n].ws, before, j);
  }

  // A job that has not stored anything leaves what it found
  lemma StillAtStart(e: Cipher, job: Job, start: Memory, done: set<Cell>, m: Memory)
    requires InJob(e, job, start, 0, done, m) && done == {}
    ensures UserOf(m) == UserOf(start)
  {
    hide OpLaunches, Exec, InWorkspace;
    var ls := OpLaunches(job.op, job.ws);
    assert ls[..0] == [];
    ExecAllNone(e, start);
    PartialNone(e, ls[0], start);
  }

  lemma SpecIsGated(e: Cipher, op: Op, ws: Workspace, before: User, j: nat)
    requires op.OpenOp? && OpFits(op, Memory(before.bytes, before.flags, [])) && j < op.len
    ensures Gated(e, op, ws, before, SpecOp(e, op, before), |OpLaunches(op, ws)|, j)
  {
    hide OpLaunches, OpenOutput, Accepts, GhashLaunches;
    GhashNodesOnly(op, ws);
  }

  lemma {:induction false} SpecAllSizes(e: Cipher, ops: seq<Op>, u: User)
    ensures var v := SpecAll(e, ops, u); |v.bytes| == |u.bytes| && |v.flags| == |u.flags|
  {
    hide SpecOp, OpFits;
    if ops != [] {
      var v := SpecAll(e, ops[..|ops| - 1], u);
      SpecAllSizes(e, ops[..|ops| - 1], u);
      if OpFits(ops[|ops| - 1], Memory(v.bytes, v.flags, [])) { SpecOpSize(e, ops[|ops| - 1], v); }
    }
  }
}
