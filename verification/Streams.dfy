/** One key handle on one FIFO stream: the host enqueues launches while the device runs earlier ones. */
module Streams {
  import opened GhashTree
  import opened Gcm
  import opened Kernels
  import opened Launches
  import opened Operations

  // A host program: calls of seal_async or open_async, and of reserve
  datatype Call = Run(op: Op) | Reserve(len: nat)

  datatype Job = Job(op: Op, ws: Workspace)

  datatype State = State(
    mem: Memory,            // device memory now
    log: seq<Launch>,       // launches enqueued so far
    ran: nat,               // how many of them have finished
    done: set<Cell>,        // cells the running launch has stored
    issuing: seq<Launch>,   // launches the current host call has still to enqueue
    todo: seq<Call>,        // host calls not yet begun
    ws: Workspace,
    jobs: seq<Job>,         // history: operations that got their workspace, with that workspace
    refused: nat)           // history: operations turned away for want of memory

  ghost predicate Init(s: State) {
    && s.log == [] && s.ran == 0 && s.done == {} && s.issuing == [] && s.jobs == [] && s.refused == 0
    && s.ws.capacity == 0
    && forall c <- s.todo :: c.Run? ==> OpFits(c.op, s.mem)
  }

  predicate Drained(s: State) { s.ran == |s.log| && s.issuing == [] }

  function CallLen(c: Call): nat { if c.Run? then c.op.len else c.len }

  // ---- Steps ----

  // ensure_workspace: keep a large enough workspace; else replace it, or fail and keep the old one. The new buffers
  // may lie anywhere and hold anything. waits says whether freeing the old ones waits for the device.
  ghost predicate Ensure(waits: bool, s: State, len: nat, ws': Workspace, ok: bool) {
    if Segs(len) <= s.ws.capacity then ok && ws' == s.ws
    else if ok then (waits ==> Drained(s)) && ws'.capacity == Segs(len) && WorkspaceFits(ws', s.mem)
    else ws' == s.ws
  }

  // The host begins its next call
  ghost predicate Begin(waits: bool, s: State, s': State) {
    && s.issuing == [] && s.todo != []
    && exists ws', ok :: Ensure(waits, s, CallLen(s.todo[0]), ws', ok) && s' == Begun(s, ws', ok)
  }

  function Begun(s: State, ws': Workspace, ok: bool): State
    requires s.todo != []
  {
    var rest := s.(todo := s.todo[1..], ws := ws');
    if s.todo[0].Reserve? then rest
    else if ok then rest.(issuing := OpLaunches(s.todo[0].op, ws'), jobs := s.jobs + [Job(s.todo[0].op, ws')])
    else rest.(refused := s.refused + 1)
  }

  // The host enqueues one launch
  predicate Push(s: State, s': State) {
    s.issuing != [] && s' == s.(log := s.log + [s.issuing[0]], issuing := s.issuing[1..])
  }

  // What a thread of the running launch may have loaded, at any moments, before it stores cell c: the cells this
  // launch does not write have not moved since it started, save free memory; the others may have held anything
  ghost predicate MayLoad(s: State, c: Cell, x: Memory): (b: bool)
    requires s.ran < |s.log| && InMemory(s.mem, c)
    ensures b ==> SameSizes(s.mem, x)
  {
    var l := s.log[s.ran];
    && SameSizes(s.mem, x) && SameCell(s.mem, x, c)
    && (forall a :: 0 <= a < |x.bytes| && !WritesByte(l, a) ==> x.bytes[a] == s.mem.bytes[a])
    && (forall p :: 0 <= p < |x.flags| && !WritesFlag(l, p) ==> x.flags[p] == s.mem.flags[p])
    && (forall i :: 0 <= i < |x.nodes| && !WritesNode(l, i) && InWorkspace(s.ws, i) ==> x.nodes[i] == s.mem.nodes[i])
  }

  // Some thread of the running launch stores one cell
  ghost predicate StoreStep(e: Cipher, s: State, s': State) {
    && s.ran < |s.log|
    && exists c: Cell, x: Memory :: InMemory(s.mem, c) && Writes(s.log[s.ran], c) && c !in s.done && MayLoad(s, c, x)
         && s' == Stored(e, s, c, x)
  }

  function Stored(e: Cipher, s: State, c: Cell, x: Memory): State
    requires s.ran < |s.log| && InMemory(s.mem, c) && SameSizes(s.mem, x)
  {
    s.(mem := StoreCell(s.mem, Exec(e, s.log[s.ran], x), c), done := s.done + {c})
  }

  // The running launch has stored all its cells and the stream moves on
  ghost predicate Retire(s: State, s': State) {
    && s.ran < |s.log|
    && (forall c: Cell :: InMemory(s.mem, c) && Writes(s.log[s.ran], c) ==> c in s.done)
    && s' == s.(ran := s.ran + 1, done := {})
  }

  // Node memory outside the current workspace belongs to others, freed buffers included: it may change at any time
  ghost predicate Scribble(s: State, s': State) {
    exists i: nat, v :: i < |s.mem.nodes| && !InWorkspace(s.ws, i) && s' == Scribbled(s, i, v)
  }

  function Scribbled(s: State, i: nat, v: GHashNode): State
    requires i < |s.mem.nodes|
  {
    s.(mem := s.mem.(nodes := s.mem.nodes[i := v]))
  }

  ghost predicate Next(e: Cipher, waits: bool, s: State, s': State) {
    Begin(waits, s, s') || Push(s, s') || StoreStep(e, s, s') || Retire(s, s') || Scribble(s, s')
  }

  ghost predicate IsRun(e: Cipher, waits: bool, run: seq<State>) {
    run != [] && forall i :: 0 < i < |run| ==> Next(e, waits, run[i - 1], run[i])
  }

  // A run from the start in which freeing device memory waits for the device
  ghost predicate IsTrace(e: Cipher, trace: seq<State>) { IsRun(e, true, trace) && Init(trace[0]) }

  // ---- What may happen ----

  // The stores of a launch come in any order, each from loads that its thread may have made early
  lemma StoresInAnyOrder(e: Cipher, waits: bool, s: State, c: Cell, x: Memory)
    requires s.ran < |s.log| && InMemory(s.mem, c) && Writes(s.log[s.ran], c) && c !in s.done
    requires SameSizes(s.mem, x) && SameCell(s.mem, x, c)
    requires forall a :: 0 <= a < |x.bytes| ==> x.bytes[a] == s.mem.bytes[a] || WritesByte(s.log[s.ran], a)
    requires forall p :: 0 <= p < |x.flags| ==> x.flags[p] == s.mem.flags[p] || WritesFlag(s.log[s.ran], p)
    requires forall i :: 0 <= i < |x.nodes| ==>
      x.nodes[i] == s.mem.nodes[i] || WritesNode(s.log[s.ran], i)
      || (!(s.ws.a <= i < s.ws.a + s.ws.capacity) && !(s.ws.b <= i < s.ws.b + s.ws.capacity))
    ensures Next(e, waits, s, s.(mem := StoreCell(s.mem, Exec(e, s.log[s.ran], x), c), done := s.done + {c}))
  {
    hide Writes, WritesByte, WritesFlag, WritesNode, Exec, StoreCell;
    assert MayLoad(s, c, x);
    assert Stored(e, s, c, x) == s.(mem := StoreCell(s.mem, Exec(e, s.log[s.ran], x), c), done := s.done + {c});
    assert StoreStep(e, s, Stored(e, s, c, x));
  }

  // Any node outside the two buffers may change to anything at any time
  lemma OthersWrite(e: Cipher, waits: bool, s: State, i: nat, v: GHashNode)
    requires i < |s.mem.nodes|
    requires !(s.ws.a <= i < s.ws.a + s.ws.capacity) && !(s.ws.b <= i < s.ws.b + s.ws.capacity)
    ensures Next(e, waits, s, s.(mem := s.mem.(nodes := s.mem.nodes[i := v])))
  {
    assert Scribble(s, Scribbled(s, i, v));
  }

  // A workspace that is too small may be refused at any time, and replaced by any two buffers that lie apart: if
  // growth waits, once the device has worked off all launches
  lemma AnyGrowth(e: Cipher, waits: bool, s: State, ws': Workspace)
    requires s.issuing == [] && s.todo != [] && s.ws.capacity < Segs(CallLen(s.todo[0]))
    ensures Next(e, waits, s, Begun(s, s.ws, false))
    ensures ws'.capacity == Segs(CallLen(s.todo[0])) && WorkspaceFits(ws', s.mem) && (!waits || s.ran == |s.log|) ==>
      Next(e, waits, s, Begun(s, ws', true))
  {
    hide Segs, WorkspaceFits, OpLaunches;
    assert Ensure(waits, s, CallLen(s.todo[0]), s.ws, false);
    assert Begin(waits, s, Begun(s, s.ws, false));
    if ws'.capacity == Segs(CallLen(s.todo[0])) && WorkspaceFits(ws', s.mem) && (!waits || s.ran == |s.log|) {
      assert Ensure(waits, s, CallLen(s.todo[0]), ws', true);
      assert Begin(waits, s, Begun(s, ws', true));
    }
  }

  // ---- The invariant ----

  function AllLaunches(jobs: seq<Job>): seq<Launch> {
    if jobs == [] then [] else AllLaunches(jobs[..|jobs| - 1]) + OpLaunches(jobs[|jobs| - 1].op, jobs[|jobs| - 1].ws)
  }

  // Operations one after the other, each by its specification alone
  function SpecAll(e: Cipher, ops: seq<Op>, u: User): User {
    if ops == [] then u else
    var before := SpecAll(e, ops[..|ops| - 1], u);
    if OpFits(ops[|ops| - 1], Memory(before.bytes, before.flags, [])) then SpecOp(e, ops[|ops| - 1], before) else before
  }

  function JobOps(jobs: seq<Job>): (ops: seq<Op>)
    ensures |ops| == |jobs|
  {
    seq(|jobs|, i requires 0 <= i < |jobs| => jobs[i].op)
  }

  // Memory k launches and some stores into a list of launches that started on m
  function Midway(e: Cipher, ls: seq<Launch>, m: Memory, k: nat, done: set<Cell>): (m': Memory)
    requires k <= |ls|
  {
    var base := ExecAll(e, ls[..k], m);
    if k < |ls| then Partial(e, ls[k], base, done) else base
  }

  // m and x agree on all that callers see and on the workspace
  ghost predicate Agree(m: Memory, x: Memory, ws: Workspace) {
    && SameSizes(m, x) && m.bytes == x.bytes && m.flags == x.flags
    && forall i :: 0 <= i < |m.nodes| && InWorkspace(ws, i) ==> m.nodes[i] == x.nodes[i]
  }

  // The device is k launches and the stores in done into a job that began on memory start
  ghost predicate InJob(e: Cipher, job: Job, start: Memory, k: int, done: set<Cell>, m: Memory) {
    var ls := OpLaunches(job.op, job.ws);
    0 <= k < |ls| && AllWritten(ls[k], done) && Agree(m, Midway(e, ls, start, k, done), job.ws)
  }

  // n jobs have finished with the effects of their specifications; the next, if any, is on its way
  ghost predicate OnTrack(e: Cipher, s: State, m0: Memory, n: nat, start: Memory) {
    && n <= |s.jobs| && SameSizes(m0, start)
    && UserOf(start) == SpecAll(e, JobOps(s.jobs[..n]), UserOf(m0))
    && var before := |AllLaunches(s.jobs[..n])|;
       if n == |s.jobs| then s.ran == before && s.done == {} && UserOf(s.mem) == UserOf(start)
       else InJob(e, s.jobs[n], start, s.ran - before, s.done, s.mem)
  }

  // The log and what is still being issued are the launches of the jobs
  ghost predicate Accounted(s: State, m0: Memory) {
    && s.log + s.issuing == AllLaunches(s.jobs) && s.ran <= |s.log|
    && (forall j <- s.jobs :: Ready(j.op, j.ws, m0))
    && (forall c <- s.todo :: c.Run? ==> OpFits(c.op, m0))
    && (s.ws.capacity > 0 ==> WorkspaceFits(s.ws, m0))
  }

  // Only finished jobs used a workspace that has been freed
  ghost predicate NoUseAfterFree(s: State) {
    forall i :: 0 <= i < |s.jobs| && s.jobs[i].ws != s.ws ==> |AllLaunches(s.jobs[..i + 1])| <= s.ran
  }

  ghost predicate Inv(e: Cipher, s: State, m0: Memory) {
    && SameSizes(m0, s.mem) && Accounted(s, m0) && NoUseAfterFree(s)
    && exists n, start :: OnTrack(e, s, m0, n, start)
  }

  lemma InitInv(e: Cipher, s: State)
    requires Init(s)
    ensures Inv(e, s, s.mem)
  {
    assert OnTrack(e, s, s.mem, 0, s.mem);
  }

  lemma ReadyBySize(op: Op, ws: Workspace, m: Memory, m': Memory)
    requires SameSizes(m, m')
    ensures OpFits(op, m) <==> OpFits(op, m')
    ensures WorkspaceFits(ws, m) <==> WorkspaceFits(ws, m')
  {}

  // ---- Where the device is in the jobs ----

  lemma {:induction false} JobsAt(jobs: seq<Job>, n: nat)
    requires n < |jobs|
    ensures var start, ls := |AllLaunches(jobs[..n])|, OpLaunches(jobs[n].op, jobs[n].ws);
      && start + |ls| <= |AllLaunches(jobs)| && |AllLaunches(jobs[..n + 1])| == start + |ls|
      && AllLaunches(jobs)[..start] == AllLaunches(jobs[..n])
      && AllLaunches(jobs)[start..start + |ls|] == ls
  {
    hide OpLaunches;
    var front, last := jobs[..|jobs| - 1], jobs[|jobs| - 1];
    if n < |front| {
      JobsAt(front, n);
      assert front[..n] == jobs[..n] && front[..n + 1] == jobs[..n + 1];
      FrontSlices(AllLaunches(front), OpLaunches(last.op, last.ws), |AllLaunches(jobs[..n])|,
                  |OpLaunches(jobs[n].op, jobs[n].ws)|);
    } else {
      assert jobs[..n + 1] == jobs && jobs[..n] == front;
    }
  }

  lemma FrontSlices<T>(s: seq<T>, t: seq<T>, a: nat, n: nat)
    requires a + n <= |s|
    ensures (s + t)[..a] == s[..a] && (s + t)[a..a + n] == s[a..a + n]
  {}

  lemma {:induction false} LaunchesPrefix(jobs: seq<Job>, n: nat)
    requires n <= |jobs|
    ensures |AllLaunches(jobs[..n])| <= |AllLaunches(jobs)|
  {
    hide OpLaunches;
    if n < |jobs| {
      LaunchesPrefix(jobs[..|jobs| - 1], n);
      assert jobs[..|jobs| - 1][..n] == jobs[..n];
    } else {
      assert jobs[..n] == jobs;
    }
  }

  // The running launch is one of the job, and the job has the current workspace
  lemma Running(e: Cipher, s: State, m0: Memory, n: nat, start: Memory)
    requires Accounted(s, m0) && NoUseAfterFree(s) && OnTrack(e, s, m0, n, start) && n < |s.jobs|
    ensures var before, ls := |AllLaunches(s.jobs[..n])|, OpLaunches(s.jobs[n].op, s.jobs[n].ws);
      && before <= s.ran < before + |ls|
      && (s.ran < |s.log| ==> s.log[s.ran] == ls[s.ran - before])
    ensures s.jobs[n].ws == s.ws
    ensures Ready(s.jobs[n].op, s.ws, m0)
  {
    hide OpLaunches, ExecAll, Partial, AllWritten, AllLaunches, Midway, SpecAll, OpFits, WorkspaceFits, Agree;
    var before, ls := |AllLaunches(s.jobs[..n])|, OpLaunches(s.jobs[n].op, s.jobs[n].ws);
    JobsAt(s.jobs, n);
    var all := s.log + s.issuing;
    if s.ran < |s.log| {
      assert s.log[s.ran] == all[s.ran] == all[before..before + |ls|][s.ran - before];
    }
  }

  // With nothing left to run, all jobs have finished
  lemma AllFinished(e: Cipher, s: State, m0: Memory, n: nat, start: Memory)
    requires Accounted(s, m0) && NoUseAfterFree(s) && OnTrack(e, s, m0, n, start) && Drained(s)
    ensures n == |s.jobs|
  {
    hide OpLaunches, AllLaunches, OnTrack, Ready, WorkspaceFits, OpFits;
    OnTrackBound(e, s, m0, n, start);
    assert s.log + s.issuing == s.log;
    if n < |s.jobs| {
      Running(e, s, m0, n, start);
      JobsAt(s.jobs, n);
    }
  }

  // With something left to run, some job has not
  lemma NotFinished(e: Cipher, s: State, m0: Memory, n: nat, start: Memory)
    requires Accounted(s, m0) && OnTrack(e, s, m0, n, start) && s.ran < |s.log|
    ensures n < |s.jobs|
  {
    hide OpLaunches, AllLaunches, InJob, SpecAll, Ready, WorkspaceFits, OpFits;
    assert s.jobs[..|s.jobs|] == s.jobs;
    assert |s.log| <= |s.log + s.issuing|;
  }

  lemma OnTrackBound(e: Cipher, s: State, m0: Memory, n: nat, start: Memory)
    requires OnTrack(e, s, m0, n, start)
    ensures n <= |s.jobs| && SameSizes(m0, start)
  {
    hide InJob, SpecAll, AllLaunches;
  }

  // ---- The host begins a call ----

  lemma BeginAccounted(s: State, m0: Memory, ws': Workspace, ok: bool)
    requires SameSizes(m0, s.mem) && Accounted(s, m0)
    requires s.issuing == [] && s.todo != [] && Ensure(true, s, CallLen(s.todo[0]), ws', ok)
    ensures Accounted(Begun(s, ws', ok), m0)
  {
    hide OpLaunches, OpFits;
    var s' := Begun(s, ws', ok);
    ReadyBySize(OpenOp(0, 0, 0, 0), ws', m0, s.mem);
    if ok && s.todo[0].Run? {
      assert s'.jobs[..|s.jobs|] == s.jobs;
      assert s.log + s.issuing == s.log;
    }
  }

  // Here the wait is needed: buffers that pending launches use must not be freed
  lemma BeginFreesSafely(s: State, m0: Memory, ws': Workspace, ok: bool)
    requires Accounted(s, m0) && NoUseAfterFree(s)
    requires s.issuing == [] && s.todo != [] && Ensure(true, s, CallLen(s.todo[0]), ws', ok)
    ensures NoUseAfterFree(Begun(s, ws', ok))
  {
    hide OpLaunches, OpFits, WorkspaceFits;
    var s' := Begun(s, ws', ok);
    assert s.log + s.issuing == s.log;
    forall i | 0 <= i < |s'.jobs| && s'.jobs[i].ws != s'.ws ensures |AllLaunches(s'.jobs[..i + 1])| <= s'.ran {
      assert s'.jobs[..i + 1] == s.jobs[..i + 1];
      LaunchesPrefix(s.jobs, i + 1);
    }
  }

  // A job about to begin on memory start
  lemma JobStarts(e: Cipher, job: Job, start: Memory)
    ensures InJob(e, job, start, 0, {}, start)
  {
    hide Exec;
    var ls := OpLaunches(job.op, job.ws);
    assert ls[..0] == [];
    ExecAllNone(e, start);
    PartialNone(e, ls[0], start);
  }

  lemma BeginOnTrack(e: Cipher, s: State, m0: Memory, ws': Workspace, ok: bool, n: nat, start: Memory)
    requires SameSizes(m0, s.mem) && OnTrack(e, s, m0, n, start) && s.todo != []
    ensures exists start' :: OnTrack(e, Begun(s, ws', ok), m0, n, start')
  {
    hide OpLaunches, InJob, SpecAll, AllLaunches;
    var s' := Begun(s, ws', ok);
    assert s'.jobs[..n] == s.jobs[..n];
    if n == |s.jobs| < |s'.jobs| {
      JobStarts(e, s'.jobs[n], s.mem);
      assert OnTrack(e, s', m0, n, s.mem);
    } else {
      assert OnTrack(e, s', m0, n, start);
    }
  }

  lemma BeginKeepsInv(e: Cipher, s: State, m0: Memory, ws': Workspace, ok: bool)
    requires Inv(e, s, m0) && s.issuing == [] && s.todo != [] && Ensure(true, s, CallLen(s.todo[0]), ws', ok)
    ensures Inv(e, Begun(s, ws', ok), m0)
  {
    hide OnTrack, Accounted, NoUseAfterFree, OpLaunches;
    BeginAccounted(s, m0, ws', ok);
    BeginFreesSafely(s, m0, ws', ok);
    var n: nat, start: Memory :| OnTrack(e, s, m0, n, start);
    BeginOnTrack(e, s, m0, ws', ok, n, start);
  }

  lemma PushKeepsInv(e: Cipher, s: State, s': State, m0: Memory)
    requires Inv(e, s, m0) && Push(s, s')
    ensures Inv(e, s', m0)
  {
    hide InJob, SpecAll, AllLaunches, Ready, OpFits, WorkspaceFits;
    assert s.log + s.issuing == s'.log + s'.issuing;
    var n: nat, start: Memory :| OnTrack(e, s, m0, n, start);
    assert OnTrack(e, s', m0, n, start);
  }

  // ---- Others write outside the workspace ----

  lemma ScribbleKeepsInv(e: Cipher, s: State, i: nat, v: GHashNode, m0: Memory)
    requires Inv(e, s, m0) && i < |s.mem.nodes| && !InWorkspace(s.ws, i)
    ensures Inv(e, Scribbled(s, i, v), m0)
  {
    hide SpecAll, AllLaunches, Ready, OpFits, WorkspaceFits, Midway, OpLaunches, AllWritten, InWorkspace;
    var s' := Scribbled(s, i, v);
    var n: nat, start: Memory :| OnTrack(e, s, m0, n, start);
    if n < |s.jobs| { Running(e, s, m0, n, start); }
    assert OnTrack(e, s', m0, n, start);
  }

  // ---- The device stores a cell ----

  // Launches of an operation touch no nodes but those of its workspace
  lemma OpLaunchesUse(op: Op, ws: Workspace)
    requires Segs(op.len) <= ws.capacity
    ensures forall l <- OpLaunches(op, ws) :: UsesOnly(l, ws)
  {
    hide CombineLaunches, RootAt;
    CombineLaunchesUse(ws, ws.a, ws.b, Segs(op.len));
  }

  ghost predicate UsesOnly(l: Launch, ws: Workspace) {
    forall i: nat :: ReadsNode(l, i) || WritesNode(l, i) ==> InWorkspace(ws, i)
  }

  lemma {:induction false} CombineLaunchesUse(ws: Workspace, input: nat, output: nat, count: nat)
    requires (input == ws.a && output == ws.b) || (input == ws.b && output == ws.a)
    requires 1 <= count <= ws.capacity
    ensures RootAt(input, output, count) in {ws.a, ws.b}
    ensures forall l <- CombineLaunches(input, output, count) :: UsesOnly(l, ws)
    decreases count
  {
    if count > 1 { CombineLaunchesUse(ws, output, input, CeilDiv(count, 2)); }
  }

  // Loads are right although others scribble and the launch itself is under way
  lemma LoadsAreGood(e: Cipher, s: State, base: Memory, x: Memory, c: Cell)
    requires s.ran < |s.log| && Fits(s.log[s.ran], base) && UsesOnly(s.log[s.ran], s.ws)
    requires AllWritten(s.log[s.ran], s.done) && Agree(s.mem, Partial(e, s.log[s.ran], base, s.done), s.ws)
    requires InMemory(s.mem, c) && Writes(s.log[s.ran], c) && c !in s.done && MayLoad(s, c, x)
    ensures SameReads(s.log[s.ran], base, x) && SameCell(base, x, c)
  {
    hide Exec, Fits;
    var l := s.log[s.ran];
    ReadsNotWritten(l, base);
    ExecWithin(e, l, base);
    BlendWithin(l, base, Exec(e, l, base), s.done);
  }

  lemma AgreeStore(m: Memory, base: Memory, x: Memory, x': Memory, done: set<Cell>, c: Cell, ws: Workspace)
    requires SameSizes(base, x) && SameSizes(base, x') && Agree(m, Blend(base, x, done), ws)
    requires InMemory(m, c) && SameCell(x, x', c)
    ensures Agree(StoreCell(m, x', c), Blend(base, x, done + {c}), ws)
  {
    hide InWorkspace;
    var y, z := StoreCell(m, x', c), Blend(base, x, done + {c});
    assert y.bytes == z.bytes;
    assert y.flags == z.flags;
  }

  lemma StoreInJob(e: Cipher, s: State, job: Job, start: Memory, k: nat, c: Cell, x: Memory)
    requires InJob(e, job, start, k, s.done, s.mem) && Ready(job.op, job.ws, start) && job.ws == s.ws
    requires s.ran < |s.log| && s.log[s.ran] == OpLaunches(job.op, job.ws)[k]
    requires InMemory(s.mem, c) && Writes(s.log[s.ran], c) && c !in s.done && MayLoad(s, c, x)
    ensures InJob(e, job, start, k, s.done + {c}, Stored(e, s, c, x).mem)
  {
    hide Exec, Fits, OpLaunches, MayLoad, Writes, InWorkspace, ExecAll, UsesOnly, SameReads, SameCell,
      OpFits, WorkspaceFits, Segs;
    var l, base := s.log[s.ran], ExecAll(e, OpLaunches(job.op, job.ws)[..k], start);
    OpLaunchesUse(job.op, job.ws);
    OpLaunchesFit(job.op, job.ws, start);
    ExecAllSize(e, OpLaunches(job.op, job.ws)[..k], start);
    FitsBySize(l, start, base);
    LoadsAreGood(e, s, base, x, c);
    Stable(e, l, base, x, c);
    AgreeStore(s.mem, base, Exec(e, l, base), Exec(e, l, x), s.done, c, s.ws);
  }

  lemma StoreKeepsInv(e: Cipher, s: State, c: Cell, x: Memory, m0: Memory)
    requires Inv(e, s, m0) && s.ran < |s.log|
    requires InMemory(s.mem, c) && Writes(s.log[s.ran], c) && c !in s.done && MayLoad(s, c, x)
    ensures Inv(e, Stored(e, s, c, x), m0)
  {
    hide SpecAll, AllLaunches, InJob, OpLaunches, Exec, Writes, MayLoad, OpFits, WorkspaceFits;
    var n: nat, start: Memory :| OnTrack(e, s, m0, n, start);
    NotFinished(e, s, m0, n, start);
    Running(e, s, m0, n, start);
    ReadyBySize(s.jobs[n].op, s.ws, m0, start);
    StoreInJob(e, s, s.jobs[n], start, s.ran - |AllLaunches(s.jobs[..n])|, c, x);
    assert OnTrack(e, Stored(e, s, c, x), m0, n, start);
  }

  // ---- A launch finishes ----

  // The job goes on to its next launch, or has finished as its specification says
  lemma RetireInJob(e: Cipher, job: Job, start: Memory, k: nat, done: set<Cell>, m: Memory)
    requires InJob(e, job, start, k, done, m) && Ready(job.op, job.ws, start)
    requires forall c: Cell :: InMemory(m, c) && Writes(OpLaunches(job.op, job.ws)[k], c) ==> c in done
    ensures k + 1 < |OpLaunches(job.op, job.ws)| ==> InJob(e, job, start, k + 1, {}, m)
    ensures k + 1 == |OpLaunches(job.op, job.ws)| ==> UserOf(m) == SpecOp(e, job.op, UserOf(start))
  {
    hide OpLaunches, Exec, Writes, OpFits, WorkspaceFits, Segs, SpecOp, ExecAll, InWorkspace, Partial;
    var ls := OpLaunches(job.op, job.ws);
    var base := ExecAll(e, ls[..k], start);
    ExecAllSize(e, ls[..k], start);
    PartialIsExec(e, ls[k], base, done);
    ExecAllSnoc(e, ls[..k], ls[k], start);
    assert ls[..k + 1] == ls[..k] + [ls[k]];
    if k + 1 < |ls| {
      PartialNone(e, ls[k + 1], ExecAll(e, ls[..k + 1], start));
    } else {
      assert ls[..k + 1] == ls;
      OpRuns(e, job.op, job.ws, start);
    }
  }

  lemma RetireKeepsInv(e: Cipher, s: State, s': State, m0: Memory)
    requires Inv(e, s, m0) && Retire(s, s')
    ensures Inv(e, s', m0)
  {
    hide SpecAll, AllLaunches, InJob, OpLaunches, Writes, OpFits, WorkspaceFits, NoUseAfterFree, InMemory, SpecOp;
    var n: nat, start: Memory :| OnTrack(e, s, m0, n, start);
    RetireNoUse(s, s');
    NotFinished(e, s, m0, n, start);
    Running(e, s, m0, n, start);
    ReadyBySize(s.jobs[n].op, s.ws, m0, start);
    var before, ls := |AllLaunches(s.jobs[..n])|, OpLaunches(s.jobs[n].op, s.jobs[n].ws);
    RetireInJob(e, s.jobs[n], start, s.ran - before, s.done, s.mem);
    if s'.ran < before + |ls| {
      assert OnTrack(e, s', m0, n, start);
    } else {
      JobsAt(s.jobs, n);
      SpecAllJob(e, s.jobs, n, start, m0);
      if n + 1 < |s.jobs| { JobStarts(e, s.jobs[n + 1], s.mem); }
      assert OnTrack(e, s', m0, n + 1, s.mem);
    }
  }

  lemma RetireNoUse(s: State, s': State)
    requires NoUseAfterFree(s) && Retire(s, s')
    ensures NoUseAfterFree(s')
  {
    hide AllLaunches, Writes;
  }

  lemma SpecAllJob(e: Cipher, jobs: seq<Job>, n: nat, start: Memory, m0: Memory)
    requires n < |jobs| && UserOf(start) == SpecAll(e, JobOps(jobs[..n]), UserOf(m0)) && OpFits(jobs[n].op, start)
    ensures OpFits(jobs[n].op, Memory(start.bytes, start.flags, []))
    ensures SpecAll(e, JobOps(jobs[..n + 1]), UserOf(m0)) == SpecOp(e, jobs[n].op, UserOf(start))
  {
    hide SpecOp, OpFits, SpecAll;
    OpFitsUser(jobs[n].op, start);
    SpecAllSnoc(e, JobOps(jobs[..n]), jobs[n].op, UserOf(m0));
    assert JobOps(jobs[..n + 1]) == JobOps(jobs[..n]) + [jobs[n].op];
  }

  lemma NextKeepsInv(e: Cipher, s: State, s': State, m0: Memory)
    requires Inv(e, s, m0) && Next(e, true, s, s')
    ensures Inv(e, s', m0)
  {
    hide Inv, Ensure, MayLoad, Writes, InMemory, Stored;
    if Begin(true, s, s') {
      var ws', ok :| Ensure(true, s, CallLen(s.todo[0]), ws', ok) && s' == Begun(s, ws', ok);
      BeginKeepsInv(e, s, m0, ws', ok);
    } else if Push(s, s') {
      PushKeepsInv(e, s, s', m0);
    } else if StoreStep(e, s, s') {
      var c: Cell, x: Memory :| InMemory(s.mem, c) && Writes(s.log[s.ran], c) && c !in s.done && MayLoad(s, c, x)
        && s' == Stored(e, s, c, x);
      StoreKeepsInv(e, s, c, x, m0);
    } else if Retire(s, s') {
      RetireKeepsInv(e, s, s', m0);
    } else {
      var i: nat, v :| i < |s.mem.nodes| && !InWorkspace(s.ws, i) && s' == Scribbled(s, i, v);
      ScribbleKeepsInv(e, s, i, v, m0);
    }
  }

  lemma {:induction false} RunKeepsInv(e: Cipher, trace: seq<State>)
    requires IsTrace(e, trace)
    ensures Inv(e, trace[|trace| - 1], trace[0].mem)
  {
    hide Inv, Next;
    if |trace| == 1 {
      InitInv(e, trace[0]);
    } else {
      RunKeepsInv(e, trace[..|trace| - 1]);
      NextKeepsInv(e, trace[|trace| - 2], trace[|trace| - 1], trace[0].mem);
    }
  }

  // ---- Asynchronous runs against one operation at a time ----

  function CallOps(calls: seq<Call>): seq<Op> {
    if calls == [] then [] else (if calls[0].Run? then [calls[0].op] else []) + CallOps(calls[1..])
  }

  // Unless memory ran out, the jobs are the program
  ghost predicate Complete(s: State, program: seq<Call>) {
    s.refused == 0 ==> JobOps(s.jobs) + CallOps(s.todo) == CallOps(program)
  }

  lemma NextComplete(e: Cipher, s: State, s': State, program: seq<Call>)
    requires Complete(s, program) && Next(e, true, s, s')
    ensures Complete(s', program)
  {
    hide OpLaunches, Writes, MayLoad, InMemory;
    if Begin(true, s, s') && s.todo[0].Run? && s'.refused == s.refused {
      assert JobOps(s'.jobs) == JobOps(s.jobs) + [s.todo[0].op];
    }
  }

  lemma {:induction false} TraceComplete(e: Cipher, trace: seq<State>)
    requires IsTrace(e, trace)
    ensures Complete(trace[|trace| - 1], trace[0].todo)
  {
    if |trace| > 1 {
      TraceComplete(e, trace[..|trace| - 1]);
      NextComplete(e, trace[|trace| - 2], trace[|trace| - 1], trace[0].todo);
    }
  }

  ghost predicate Quiescent(s: State) { s.todo == [] && Drained(s) }

  // However host and device interleave, and whatever others do to memory that is not the workspace, a finished run
  // has had the effects of its operations, in order, each as if alone on a fresh handle; and all of them took place
  // unless one was refused for want of memory
  lemma AsyncRunsMatchSpec(e: Cipher, trace: seq<State>)
    requires IsTrace(e, trace) && Quiescent(trace[|trace| - 1])
    ensures var s := trace[|trace| - 1];
      && UserOf(s.mem) == SpecAll(e, JobOps(s.jobs), UserOf(trace[0].mem))
      && (s.refused == 0 ==> JobOps(s.jobs) == CallOps(trace[0].todo))
  {
    hide SpecAll, AllLaunches, Accounted, NoUseAfterFree, OnTrack, Next, Init;
    var s, m0 := trace[|trace| - 1], trace[0].mem;
    RunKeepsInv(e, trace);
    TraceComplete(e, trace);
    var n: nat, start: Memory :| OnTrack(e, s, m0, n, start);
    AllFinished(e, s, m0, n, start);
    OnTrackEnd(e, s, m0, start);
    assert JobOps(s.jobs) + CallOps([]) == JobOps(s.jobs);
  }

  lemma OnTrackEnd(e: Cipher, s: State, m0: Memory, start: Memory)
    requires OnTrack(e, s, m0, |s.jobs|, start)
    ensures UserOf(s.mem) == SpecAll(e, JobOps(s.jobs), UserOf(m0))
  {
    hide SpecAll, AllLaunches, InJob;
    assert s.jobs[..|s.jobs|] == s.jobs;
  }

  // The specification of an operation is what it does alone on a fresh handle with any leftovers in its buffers
  lemma AloneOnFreshHandle(e: Cipher, op: Op, own: Workspace, m: Memory)
    requires Ready(op, own, m)
    ensures SpecAll(e, [op], UserOf(m)) == UserOf(ExecAll(e, OpLaunches(op, own), m))
  {
    hide OpLaunches, SpecOp, ExecAll;
    OpRuns(e, op, own, m);
    ReadyBySize(op, own, m, Memory(m.bytes, m.flags, m.nodes));
    assert [op][..0] == [];
  }

  // ---- Round trip on the device ----

  // op opens the frame that seal leaves
  predicate Opens(op: Op, seal: Op) {
    op.OpenOp? && seal.SealOp? && op.src == seal.dst && op.len == seal.len
  }

  lemma SealThenOpen(e: Cipher, seal: Op, open: Op, u: User)
    requires Opens(open, seal) && OpFits(seal, Memory(u.bytes, u.flags, []))
      && OpFits(open, Memory(u.bytes, u.flags, []))
    ensures var v := SpecAll(e, [seal, open], u);
      && |v.bytes| == |u.bytes| && |v.flags| == |u.flags|
      && v.flags[open.flag] == 1
      && v.bytes[open.dst..open.dst + open.len] == u.bytes[seal.src..seal.src + seal.len]
  {
    hide SealFrame, SpecAll;
    var p, sealed := u.bytes[seal.src..seal.src + seal.len], SpecOp(e, seal, u);
    SpecAllTwo(e, seal, open, u);
    OpensSealed(e, open, seal.iv, p, sealed);
  }

  lemma SpecAllTwo(e: Cipher, a: Op, b: Op, u: User)
    requires OpFits(a, Memory(u.bytes, u.flags, [])) && OpFits(b, Memory(u.bytes, u.flags, []))
    ensures var v := SpecOp(e, a, u);
      OpFits(b, Memory(v.bytes, v.flags, [])) && SpecAll(e, [a, b], u) == SpecOp(e, b, v)
  {
    hide SpecOp, OpFits, SpecAll;
    var v := SpecOp(e, a, u);
    SpecOpSize(e, a, u);
    ReadyBySize(b, Workspace(0, 0, 0), Memory(u.bytes, u.flags, []), Memory(v.bytes, v.flags, []));
    SpecAllSnoc(e, [], a, u);
    SpecAllSnoc(e, [a], b, u);
    assert SpecAll(e, [], u) == u by { SpecAllNone(e, u); }
    assert [] + [a] == [a] && [a] + [b] == [a, b];
  }

  lemma SpecAllNone(e: Cipher, u: User)
    ensures SpecAll(e, [], u) == u
  {}

  lemma SpecAllSnoc(e: Cipher, ops: seq<Op>, op: Op, u: User)
    ensures var v := SpecAll(e, ops, u);
      SpecAll(e, ops + [op], u) == if OpFits(op, Memory(v.bytes, v.flags, [])) then SpecOp(e, op, v) else v
  {}

  lemma SpecOpSize(e: Cipher, op: Op, u: User)
    requires OpFits(op, Memory(u.bytes, u.flags, []))
    ensures |SpecOp(e, op, u).bytes| == |u.bytes| && |SpecOp(e, op, u).flags| == |u.flags|
  {}

  // Any run of a seal and an open of its frame, with any reserves between, ends with the plaintext back and the flag 1
  lemma RoundTripRun(e: Cipher, trace: seq<State>, seal: Op, open: Op)
    requires IsTrace(e, trace) && Quiescent(trace[|trace| - 1]) && trace[|trace| - 1].refused == 0
    requires CallOps(trace[0].todo) == [seal, open] && Opens(open, seal)
    ensures var m, m' := trace[0].mem, trace[|trace| - 1].mem;
      && SameSizes(m, m') && OpFits(seal, m) && OpFits(open, m)
      && m'.flags[open.flag] == 1
      && m'.bytes[open.dst..open.dst + open.len] == m.bytes[seal.src..seal.src + seal.len]
  {
    hide SpecAll, Inv, OpFits, Next, Init;
    var m := trace[0].mem;
    TraceStarts(e, trace, [seal, open]);
    AsyncRunsMatchSpec(e, trace);
    assert [seal, open][0] == seal && [seal, open][1] == open;
    OpFitsUser(seal, m);
    OpFitsUser(open, m);
    SealThenOpen(e, seal, open, UserOf(m));
    RunSizes(e, trace);
  }

  lemma OpFitsUser(op: Op, m: Memory)
    ensures OpFits(op, m) <==> OpFits(op, Memory(m.bytes, m.flags, []))
  {}

  lemma RunSizes(e: Cipher, trace: seq<State>)
    requires IsTrace(e, trace)
    ensures SameSizes(trace[0].mem, trace[|trace| - 1].mem)
  {
    hide IsTrace, OnTrack, Accounted, NoUseAfterFree;
    RunKeepsInv(e, trace);
  }

  lemma TraceStarts(e: Cipher, trace: seq<State>, ops: seq<Op>)
    requires IsTrace(e, trace) && CallOps(trace[0].todo) == ops
    ensures forall op <- ops :: OpFits(op, trace[0].mem)
  {
    hide OpFits;
    CallOpsIn(trace[0].todo, trace[0].mem);
  }

  lemma {:induction false} CallOpsIn(calls: seq<Call>, m: Memory)
    requires forall c <- calls :: c.Run? ==> OpFits(c.op, m)
    ensures forall op <- CallOps(calls) :: OpFits(op, m)
  {
    hide OpFits;
    if calls != [] { CallOpsIn(calls[1..], m); }
  }
}
