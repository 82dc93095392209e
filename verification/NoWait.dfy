/** Programs that need no waiting growth: when a caller may rely on the workspace although the runtime does not wait. */
module NoWait {
  import opened Words
  import opened Blocks
  import opened Bytes
  import opened GhashTree
  import opened Gcm
  import opened Kernels
  import opened Launches
  import opened Operations
  import opened Streams
  import opened Faults
  import opened Gate
  import opened Progress

  // No call after an operation needs more nodes than that operation
  predicate Modest(calls: seq<Call>) {
    forall i, j :: 0 <= i < j < |calls| && calls[i].Run? ==> Segs(CallLen(calls[j])) <= Segs(CallLen(calls[i]))
  }

  // The workspace has the nodes for all calls to come
  predicate Covered(s: State) { forall c <- s.todo :: Segs(CallLen(c)) <= s.ws.capacity }

  predicate NothingEnqueued(s: State) { s.log == [] && s.issuing == [] }

  // ---- Enough ----

  // As long as nothing is enqueued or the workspace suffices, growth never has anything to wait for
  lemma NextWaits(e: Cipher, s: State, t: State)
    requires Next(e, false, s, t) && s.ran <= |s.log| && (NothingEnqueued(s) || Covered(s))
    ensures Next(e, true, s, t) && t.ran <= |t.log|
  {
    hide MayLoad, Writes, Exec, OpLaunches, Segs, WorkspaceFits;
    if Begin(false, s, t) {
      var ws', ok :| Ensure(false, s, CallLen(s.todo[0]), ws', ok) && t == Begun(s, ws', ok);
      assert Ensure(true, s, CallLen(s.todo[0]), ws', ok);
      assert Begin(true, s, t);
    }
  }

  ghost predicate NeverGrowsLate(run: seq<State>) { forall s <- run :: NothingEnqueued(s) || Covered(s) }

  lemma {:induction false} RunWaits(e: Cipher, run: seq<State>)
    requires IsRun(e, false, run) && Init(run[0]) && NeverGrowsLate(run)
    ensures IsTrace(e, run) && run[|run| - 1].ran <= |run[|run| - 1].log|
  {
    hide Next, Covered, NothingEnqueued;
    var n := |run| - 1;
    if n > 0 {
      var front := run[..n];
      forall i | 0 < i < |front| ensures Next(e, false, front[i - 1], front[i]) {
        assert Next(e, false, run[i - 1], run[i]);
      }
      RunWaits(e, front);
      assert Next(e, false, run[n - 1], run[n]);
      NextWaits(e, run[n - 1], run[n]);
      forall i | 0 < i < |run| ensures Next(e, true, run[i - 1], run[i]) {
        if i < n { assert Next(e, true, front[i - 1], front[i]); }
      }
    } else {
      assert run[0].ran == 0 by { InitRan(run[0]); }
    }
  }

  lemma InitRan(s: State)
    requires Init(s)
    ensures s.ran == 0
  {}

  ghost predicate Ample(s: State) { Modest(s.todo) && (NothingEnqueued(s) || Covered(s)) }

  lemma NextAmple(e: Cipher, s: State, t: State)
    requires Next(e, false, s, t) && Ample(s)
    ensures Ample(t)
  {
    hide MayLoad, Writes, Exec, OpLaunches, Segs, WorkspaceFits;
    if Begin(false, s, t) {
      var ws', ok :| Ensure(false, s, CallLen(s.todo[0]), ws', ok) && t == Begun(s, ws', ok);
      assert t.todo == s.todo[1..];
      forall i, j | 0 <= i < j < |t.todo| && t.todo[i].Run?
        ensures Segs(CallLen(t.todo[j])) <= Segs(CallLen(t.todo[i]))
      {
        assert s.todo[i + 1] == t.todo[i] && s.todo[j + 1] == t.todo[j];
      }
      if ok && s.todo[0].Run? {
        forall c <- t.todo ensures Segs(CallLen(c)) <= t.ws.capacity {
          var j :| 0 <= j < |t.todo| && t.todo[j] == c;
          assert s.todo[j + 1] == c;
        }
      }
    }
  }

  lemma {:induction false} RunAmple(e: Cipher, run: seq<State>, i: nat)
    requires IsRun(e, false, run) && Init(run[0]) && Modest(run[0].todo) && i < |run|
    ensures Ample(run[i])
  {
    hide Next, Modest, Covered;
    if i > 0 {
      RunAmple(e, run, i - 1);
      NextAmple(e, run[i - 1], run[i]);
    }
  }

  // Of a modest program every run is right, whether or not the runtime waits
  lemma ModestRuns(e: Cipher, run: seq<State>)
    requires IsRun(e, false, run) && Init(run[0]) && Modest(run[0].todo)
    ensures IsTrace(e, run)
  {
    hide Next, Init, Modest, Covered, NothingEnqueued;
    forall s <- run ensures NothingEnqueued(s) || Covered(s) {
      var i :| 0 <= i < |run| && run[i] == s;
      RunAmple(e, run, i);
    }
    RunWaits(e, run);
  }

  // ---- Reserving first ----

  lemma NextReserved(e: Cipher, n: nat, s: State, t: State)
    requires Next(e, false, s, t) && (forall c <- s.todo :: CallLen(c) <= n) && Segs(n) <= s.ws.capacity
    ensures (forall c <- t.todo :: CallLen(c) <= n) && Segs(n) <= t.ws.capacity
  {
    hide MayLoad, Writes, Exec, OpLaunches, Segs, WorkspaceFits;
    if Begin(false, s, t) {
      SegsMonotone(CallLen(s.todo[0]), n);
      assert forall c <- t.todo :: c in s.todo;
    }
  }

  // If a first reserve of the longest length is granted, every run is right, whether or not the runtime waits
  lemma ReservedRuns(e: Cipher, run: seq<State>, n: nat, rest: seq<Call>)
    requires IsRun(e, false, run) && Init(run[0]) && run[0].todo == [Reserve(n)] + rest
    requires forall c <- rest :: CallLen(c) <= n
    requires forall s <- run :: s.todo == rest ==> Segs(n) <= s.ws.capacity
    ensures IsTrace(e, run)
  {
    hide Next, Covered, Segs;
    forall s <- run ensures NothingEnqueued(s) || Covered(s) {
      var i :| 0 <= i < |run| && run[i] == s;
      ReservedAt(e, run, n, rest, i);
      ReservedCovers(n, s);
    }
    RunWaits(e, run);
  }

  lemma ReservedCovers(n: nat, s: State)
    requires
      || (s.todo != [] && NothingEnqueued(s))
      || ((forall c <- s.todo :: CallLen(c) <= n) && Segs(n) <= s.ws.capacity)
    ensures NothingEnqueued(s) || Covered(s)
  {
    hide Segs;
    forall c <- s.todo | CallLen(c) <= n ensures Segs(CallLen(c)) <= Segs(n) { SegsMonotone(CallLen(c), n); }
  }

  lemma {:induction false} ReservedAt(e: Cipher, run: seq<State>, n: nat, rest: seq<Call>, i: nat)
    requires IsRun(e, false, run) && Init(run[0]) && run[0].todo == [Reserve(n)] + rest && i < |run|
    requires forall c <- rest :: CallLen(c) <= n
    requires forall s <- run :: s.todo == rest ==> Segs(n) <= s.ws.capacity
    ensures (run[i].todo == [Reserve(n)] + rest && NothingEnqueued(run[i]))
         || ((forall c <- run[i].todo :: CallLen(c) <= n) && Segs(n) <= run[i].ws.capacity)
  {
    hide Next, Segs;
    if i > 0 {
      ReservedAt(e, run, n, rest, i - 1);
      if run[i - 1].todo == [Reserve(n)] + rest && NothingEnqueued(run[i - 1]) {
        FirstReserve(e, n, rest, run[i - 1], run[i]);
      } else {
        NextReserved(e, n, run[i - 1], run[i]);
      }
    }
  }

  lemma FirstReserve(e: Cipher, n: nat, rest: seq<Call>, s: State, t: State)
    requires Next(e, false, s, t) && s.todo == [Reserve(n)] + rest && NothingEnqueued(s)
    ensures t.todo == rest || (t.todo == s.todo && NothingEnqueued(t))
  {
    hide MayLoad, Writes, Exec, OpLaunches, Segs, Ensure;
  }

  // ---- The jobs that have finished are right ----

  // Whenever the device stands between two jobs, memory is as the specifications of those before leave it
  ghost predicate Right(e: Cipher, s: State, m0: Memory) {
    forall n :: 0 <= n <= |s.jobs| && s.ran == |AllLaunches(s.jobs[..n])| && s.done == {} ==>
      UserOf(s.mem) == SpecAll(e, JobOps(s.jobs[..n]), UserOf(m0))
  }

  lemma TraceRight(e: Cipher, trace: seq<State>)
    requires IsTrace(e, trace)
    ensures Right(e, trace[|trace| - 1], trace[0].mem)
  {
    hide Next, Init, OnTrack, AllLaunches, SpecAll;
    var s, m0 := trace[|trace| - 1], trace[0].mem;
    RunKeepsInv(e, trace);
    var n': nat, start: Memory :| OnTrack(e, s, m0, n', start);
    forall n | 0 <= n <= |s.jobs| && s.ran == |AllLaunches(s.jobs[..n])| && s.done == {}
      ensures UserOf(s.mem) == SpecAll(e, JobOps(s.jobs[..n]), UserOf(m0))
    {
      BetweenJobs(e, s, m0, n, n', start);
    }
  }

  lemma BetweenJobs(e: Cipher, s: State, m0: Memory, n: nat, n': nat, start: Memory)
    requires Accounted(s, m0) && NoUseAfterFree(s) && OnTrack(e, s, m0, n', start)
    requires n <= |s.jobs| && s.ran == |AllLaunches(s.jobs[..n])| && s.done == {}
    ensures UserOf(s.mem) == SpecAll(e, JobOps(s.jobs[..n]), UserOf(m0))
  {
    hide OpLaunches, AllLaunches, InJob, SpecAll, Ready, OpFits, WorkspaceFits;
    if n' < |s.jobs| {
      Running(e, s, m0, n', start);
      JobsAt(s.jobs, n');
      if n' < n { LaunchesUpTo(s.jobs, n' + 1, n); }
    }
    if n < n' {
      LaunchesUpTo(s.jobs, n + 1, n');
      JobsAt(s.jobs, n);
      SomeLaunches(s.jobs[n]);
    }
    if n < |s.jobs| { StillAtStart(e, s.jobs[n], start, s.done, s.mem); }
  }

  // ---- And necessary ----

  // Run operation i of a program that is not modest just before the first call that outgrows it
  lemma RefuseCalls(e: Cipher, s: State, n: nat) returns (t: State)
    requires s.issuing == [] && s.ws.capacity == 0 && n <= |s.todo|
    ensures Reaches(e, false, s, t) && t == s.(todo := s.todo[n..], refused := t.refused)
    decreases n
  {
    hide Reaches, OpLaunches, StoreStep, Push, Retire, Scribble;
    if n == 0 {
      t := s;
      ReachesSelf(e, false, s);
    } else {
      SegsMonotone(0, CallLen(s.todo[0]));
      var u := Begun(s, s.ws, false);
      assert Ensure(false, s, CallLen(s.todo[0]), s.ws, false) && Begin(false, s, u);
      FirstStep(e, false, s, u);
      t := RefuseCalls(e, u, n - 1);
      ReachesOn(e, false, s, u, t);
    }
  }

  lemma {:induction false} EnqueueAll(e: Cipher, s: State)
    ensures Reaches(e, false, s, s.(log := s.log + s.issuing, issuing := []))
    decreases |s.issuing|
  {
    hide Reaches, Begin, StoreStep, Retire, Scribble;
    var t := s.(log := s.log + s.issuing, issuing := []);
    if s.issuing == [] {
      assert s == t;
      ReachesSelf(e, false, s);
    } else {
      var u := s.(log := s.log + [s.issuing[0]], issuing := s.issuing[1..]);
      FirstStep(e, false, s, u);
      EnqueueAll(e, u);
      assert u.log + u.issuing == s.log + s.issuing;
      ReachesOn(e, false, s, u, t);
    }
  }

  // The host goes on while the device stands still
  lemma EnqueueCalls(e: Cipher, s: State, n: nat) returns (t: State)
    requires s.issuing == [] && n <= |s.todo| && forall k :: 0 <= k < n ==> Segs(CallLen(s.todo[k])) <= s.ws.capacity
    ensures Reaches(e, false, s, t) && t.todo == s.todo[n..] && t.issuing == [] && t.ws == s.ws
    ensures t.mem == s.mem && t.ran == s.ran && t.done == s.done && s.log <= t.log && s.jobs <= t.jobs
    decreases n
  {
    hide Reaches, OpLaunches, StoreStep, Push, Retire, Scribble, Segs;
    if n == 0 {
      t := s;
      ReachesSelf(e, false, s);
    } else {
      var u := Begun(s, s.ws, true);
      assert Ensure(false, s, CallLen(s.todo[0]), s.ws, true) && Begin(false, s, u);
      FirstStep(e, false, s, u);
      EnqueueAll(e, u);
      var v := u.(log := u.log + u.issuing, issuing := []);
      ReachesOn(e, false, s, u, v);
      t := EnqueueCalls(e, v, n - 1);
      ReachesOn(e, false, s, v, t);
    }
  }

  // The device finishes the next n launches
  lemma {:induction false} RunSome(e: Cipher, s: State, n: nat)
    requires s.done == {} && s.ran + n <= |s.log| && forall k :: s.ran <= k < s.ran + n ==> Fits(s.log[k], s.mem)
    ensures Reaches(e, false, s, s.(mem := ExecAll(e, s.log[s.ran..s.ran + n], s.mem), ran := s.ran + n))
    decreases n
  {
    hide Reaches, Exec, Fits, ExecAll;
    if n == 0 {
      assert s.log[s.ran..s.ran] == [];
      ExecAllNone(e, s.mem);
      ReachesSelf(e, false, s);
    } else {
      RunSome(e, s, n - 1);
      var ls := s.log[s.ran..s.ran + n - 1];
      var l, m := s.log[s.ran + n - 1], ExecAll(e, ls, s.mem);
      var u := s.(mem := m, ran := s.ran + n - 1);
      ExecAllSize(e, ls, s.mem);
      FitsBySize(l, s.mem, m);
      PartialNone(e, l, m);
      var m' := FinishLaunch(e, false, u, m);
      ExecAllSnoc(e, ls, l, s.mem);
      assert s.log[s.ran..s.ran + n] == ls + [l];
      ReachesOn(e, false, s, u, Finished(u, m'));
    }
  }

  // ---- A hash that turns into another one shows ----

  // How many launches come before the one that reads the root
  function Reader(op: Op, ws: Workspace): (v: nat)
    ensures v < |OpLaunches(op, ws)|
  {
    if op.SealOp? then |OpLaunches(op, ws)| - 1 else |OpenGhash(op, ws)|
  }

  function Turned(m: Memory, i: nat, y: Block128): Memory
    requires i < |m.nodes|
  {
    m.(nodes := m.nodes[i := GHashNode(y, 0)])
  }

  // An open shows it only on a frame of version 1
  predicate Telling(op: Op, m: Memory) { op.OpenOp? ==> op.src < |m.bytes| && m.bytes[op.src] == VERSION }

  lemma OtherHash(e: Cipher, op: Op, ws: Workspace, m: Memory) returns (y: Block128)
    requires Ready(op, ws, m) && Telling(op, m)
    ensures var ls, v, root := OpLaunches(op, ws), Reader(op, ws), GhashRoot(op.len, ws);
      && SameSizes(m, ExecAll(e, ls[..v], m)) && root in {ws.a, ws.b} && root < |m.nodes|
      && UserOf(ExecAll(e, ls[v..], Turned(ExecAll(e, ls[..v], m), root, y))) != SpecOp(e, op, UserOf(m))
  {
    hide OpLaunches, ExecAll, GhashRoot, SpecOp, WorkspaceFits, Telling, OpenGhash;
    if op.SealOp? { y := OtherSealHash(e, op, ws, m); } else { y := OtherOpenHash(e, op, ws, m); }
  }

  lemma RootIn(op: Op, ws: Workspace, m: Memory)
    requires Ready(op, ws, m)
    ensures GhashRoot(op.len, ws) in {ws.a, ws.b} && GhashRoot(op.len, ws) < |m.nodes|
  {
    hide OpFits, CombineLaunches;
    CombineLaunchesUse(ws, ws.a, ws.b, Segs(op.len));
  }

  lemma OtherSealHash(e: Cipher, op: Op, ws: Workspace, m: Memory) returns (y: Block128)
    requires op.SealOp? && Ready(op, ws, m)
    ensures var ls, v, root := OpLaunches(op, ws), |OpLaunches(op, ws)| - 1, GhashRoot(op.len, ws);
      && v >= 0 && SameSizes(m, ExecAll(e, ls[..v], m)) && root in {ws.a, ws.b} && root < |m.nodes|
      && UserOf(ExecAll(e, ls[v..], Turned(ExecAll(e, ls[..v], m), root, y))) != SpecOp(e, op, UserOf(m))
  {
    hide ExecAll, GhashRoot, SpecOp, WorkspaceFits, Exec, Mask, GhashLaunches, CtrLaunches, Crypt, Ghash, HashKey,
      BlocksOf, HashInput;
    RootIn(op, ws, m);
    var ls, root := OpLaunches(op, ws), GhashRoot(op.len, ws);
    var v, c := |ls| - 1, Crypt(e, op.iv, m.bytes[op.src..op.src + op.len]);
    ExecAllSize(e, ls[..v], m);
    BeforeFinalize(e, op, ws, m);
    var h := Ghash(HashKey(e), BlocksOf(HashInput(c)));
    y := if h == ZERO then ONE else ZERO;
    var turned := Turned(ExecAll(e, ls[..v], m), root, y);
    assert ls[v..] == [Finalize(op.dst, op.len, root)];
    ExecAllOne(e, Finalize(op.dst, op.len, root), turned);
    TurnedTag(e, op, turned, root, y);
    SpecTag(e, op, m);
    if UserOf(ExecAll(e, ls[v..], turned)) == SpecOp(e, op, UserOf(m)) { MaskInjective(e, op.iv, h, y); }
  }

  // Up to the finalize kernel the IV is in place
  lemma BeforeFinalize(e: Cipher, op: Op, ws: Workspace, m: Memory)
    requires op.SealOp? && Ready(op, ws, m)
    ensures var ls := OpLaunches(op, ws);
      && |ls| > 0 && SameSizes(m, ExecAll(e, ls[..|ls| - 1], m)) && op.dst + 13 <= |m.bytes|
      && IvAt(ExecAll(e, ls[..|ls| - 1], m), op.dst + 1) == op.iv
  {
    hide ExecAll, GhashRoot, GhashLaunches, CtrLaunches, HoldsHash, Crypt;
    var ls, head, g := OpLaunches(op, ws), SealHead(op), GhashLaunches(op.dst + HEADER_LEN, op.len, ws);
    var c := Crypt(e, op.iv, m.bytes[op.src..op.src + op.len]);
    ExecAllSize(e, ls[..|ls| - 1], m);
    assert ls[..|ls| - 1] == head + g;
    ExecAllAppend(e, head, g, m);
    ExecAllAppend(e, [Header(op.dst, op.iv)], CtrLaunches(op.src, op.dst + HEADER_LEN, op.len, op.dst + 1, None), m);
    SealBody(e, op.src, op.len, op.dst, op.iv, m);
    var sealed := m.(bytes := Splice(m.bytes, op.dst, [VERSION] + op.iv + c));
    GhashRuns(e, op.dst + HEADER_LEN, op.len, ws, sealed);
    SpliceRead(m.bytes, op.dst, [VERSION] + op.iv + c, op.dst + 1, 12);
  }

  lemma TurnedTag(e: Cipher, op: Op, m: Memory, root: nat, y: Block128)
    requires op.SealOp? && Fits(Finalize(op.dst, op.len, root), m)
    requires IvAt(m, op.dst + 1) == op.iv && m.nodes[root].y == y
    ensures var tag := op.dst + HEADER_LEN + op.len;
      Exec(e, Finalize(op.dst, op.len, root), m).bytes[tag..tag + 16] == Mask(e, op.iv, y)
  {
    hide Mask;
  }

  lemma SpecTag(e: Cipher, op: Op, m: Memory)
    requires op.SealOp? && OpFits(op, m)
    ensures OpFits(op, Memory(m.bytes, m.flags, []))
    ensures var tag, u := op.dst + HEADER_LEN + op.len, SpecOp(e, op, UserOf(m));
      && |u.bytes| == |m.bytes|
      && u.bytes[tag..tag + 16] == Tag(e, op.iv, Crypt(e, op.iv, m.bytes[op.src..op.src + op.len]))
  {
    hide Tag, Crypt;
    var f, tag := SealFrame(e, op.iv, m.bytes[op.src..op.src + op.len]), op.dst + HEADER_LEN + op.len;
    SpliceRead(m.bytes, op.dst, f, tag, 16);
  }

  lemma OtherOpenHash(e: Cipher, op: Op, ws: Workspace, m: Memory) returns (y: Block128)
    requires op.OpenOp? && Ready(op, ws, m) && Telling(op, m)
    ensures var ls, v, root := OpLaunches(op, ws), |OpenGhash(op, ws)|, GhashRoot(op.len, ws);
      && v <= |ls| && SameSizes(m, ExecAll(e, ls[..v], m)) && root in {ws.a, ws.b} && root < |m.nodes|
      && UserOf(ExecAll(e, ls[v..], Turned(ExecAll(e, ls[..v], m), root, y))) != SpecOp(e, op, UserOf(m))
  {
    hide OpLaunches, ExecAll, GhashRoot, OpFits, WorkspaceFits, Exec, OpenGhash, OpenCtrs, Accepts, Verdict, OpenOutput;
    RootIn(op, ws, m);
    OpenIs(op, ws);
    GhashKeepsUser(e, op, ws, m);
    OpFitsUser(op, m);
    var ls, g, root := OpLaunches(op, ws), OpenGhash(op, ws), GhashRoot(op.len, ws);
    assert ls[..|g|] == g && ls[|g|..] == OpenTail(op, ws);
    var frame := FrameOf(op, m);
    FrameVersion(op, m);
    y := OtherVerdict(e, frame, op.len);
    var turned := Turned(ExecAll(e, g, m), root, y);
    OpFitsUser(op, turned);
    TurnedFlag(e, op, ws, turned, root, y);
    SpecFlag(e, op, m);
  }

  function FrameOf(op: Op, m: Memory): (f: seq<byte>)
    requires op.OpenOp? && OpFits(op, m)
    ensures |f| == op.len + OVERHEAD
  {
    m.bytes[op.src..op.src + op.len + OVERHEAD]
  }

  lemma FrameVersion(op: Op, m: Memory)
    requires op.OpenOp? && OpFits(op, m) && Telling(op, m)
    ensures FrameOf(op, m)[0] == VERSION
  {}

  // A hash on which the verify kernel decides the other way
  lemma OtherVerdict(e: Cipher, frame: seq<byte>, len: nat) returns (y: Block128)
    requires |frame| == len + OVERHEAD && frame[0] == VERSION
    ensures (Verdict(e, frame, len, y) == 1) == !Accepts(e, frame, len)
    ensures Verdict(e, frame, len, y) in {0, 1}
  {
    hide Mask, Ghash, HashKey, BlocksOf, HashInput;
    var iv, c, tag := FrameIv(frame), FrameBody(frame, len), frame[HEADER_LEN + len..];
    assert tag == frame[13 + len..len + OVERHEAD];
    if Accepts(e, frame, len) {
      var h := Ghash(HashKey(e), BlocksOf(HashInput(c)));
      y := if h == ZERO then ONE else ZERO;
      if Mask(e, iv, h) == Mask(e, iv, y) { MaskInjective(e, iv, h, y); }
    } else {
      y := HashFor(e, iv, tag);
    }
  }

  // Every tag is the tag of some hash
  lemma HashFor(e: Cipher, iv: Iv, tag: BlockBytes) returns (y: Block128)
    ensures Mask(e, iv, y) == tag
  {
    hide XorBytes, J0;
    y := BlockOf(XorBytes(e(J0(iv)), tag));
    BytesOfBlockOf(XorBytes(e(J0(iv)), tag));
    XorBytesBack(e(J0(iv)), tag);
  }

  lemma XorBytesBack(k: seq<byte>, t: seq<byte>)
    requires |k| == |t|
    ensures XorBytes(k, XorBytes(k, t)) == t
  {
    forall i | 0 <= i < |k| ensures Xor(k[i], Xor(k[i], t[i])) == t[i] { XorBack(k[i], t[i]); }
  }

  lemma {:induction false} XorBack(a: nat, b: nat)
    ensures Xor(a, Xor(a, b)) == b
    decreases a + b
  {
    hide Xor;
    XorHalves(a, b);
    XorHalves(a, Xor(a, b));
    if a + b > 0 { XorBack(a / 2, b / 2); }
  }

  lemma TurnedFlag(e: Cipher, op: Op, ws: Workspace, m: Memory, root: nat, y: Block128)
    requires op.OpenOp? && OpFits(op, m) && root == GhashRoot(op.len, ws) && root < |m.nodes| && m.nodes[root].y == y
    ensures |ExecAll(e, OpenTail(op, ws), m).flags| == |m.flags|
    ensures ExecAll(e, OpenTail(op, ws), m).flags[op.flag] == Verdict(e, FrameOf(op, m), op.len, y)
  {
    hide ExecAll, GhashRoot, Verdict, OpenCtrs;
    var v, m' := Verify(op.src, op.len, root, op.flag), Exec(e, Verify(op.src, op.len, root, op.flag), m);
    ExecAllAppend(e, [v], OpenCtrs(op), m);
    ExecAllOne(e, v, m);
    CtrsWriteIn(op);
    RunStaysIn(e, OpenCtrs(op), m', Target(op.dst, op.len, {}));
  }

  lemma CtrsWriteIn(op: Op)
    requires op.OpenOp?
    ensures forall l <- OpenCtrs(op) :: WritesIn(l, Target(op.dst, op.len, {}))
  {}

  lemma SpecFlag(e: Cipher, op: Op, m: Memory)
    requires op.OpenOp? && OpFits(op, m)
    ensures OpFits(op, Memory(m.bytes, m.flags, []))
    ensures var u := SpecOp(e, op, UserOf(m));
      |u.flags| == |m.flags| && u.flags[op.flag] == if Accepts(e, FrameOf(op, m), op.len) then 1 else 0
  {
    hide Accepts, OpenOutput;
  }

  // ---- A run in which growth comes too early ----

  function Beginning(calls: seq<Call>, m: Memory): State { State(m, [], 0, {}, [], calls, Workspace(0, 0, 0), [], 0) }

  function First(c: nat): Workspace { Workspace(0, c, c) }

  function Second(c: nat, d: nat): Workspace { Workspace(2 * c, 2 * c + d, d) }

  // The host is through with operation i and with growing for call j before the device has started
  ghost predicate GrownEarly(s: State, m: Memory, op: Op, c: nat, d: nat) {
    && s.mem == m && s.ran == 0 && s.done == {} && s.ws == Second(c, d)
    && OpLaunches(op, First(c)) <= s.log && s.jobs != [] && s.jobs[0] == Job(op, First(c))
  }

  lemma EarlyGrowth(e: Cipher, calls: seq<Call>, i: nat, j: nat, m: Memory, c: nat, d: nat) returns (t: State)
    requires i < j < |calls| && calls[i].Run? && c == Segs(calls[i].op.len) && d == Segs(CallLen(calls[j])) && c < d
    requires (forall k :: i < k < j ==> Segs(CallLen(calls[k])) <= c) && |m.nodes| == 2 * c + 2 * d
    ensures Reaches(e, false, Beginning(calls, m), t) && GrownEarly(t, m, calls[i].op, c, d)
  {
    hide Reaches, OpLaunches, StoreStep, Push, Retire, Scribble, Segs;
    var s := Beginning(calls, m);
    SegsMonotone(0, calls[i].op.len);
    var t1 := RefuseCalls(e, s, i);
    var t2 := Begun(t1, First(c), true);
    assert t1.todo[0] == calls[i] && WorkspaceFits(First(c), m);
    assert Ensure(false, t1, CallLen(t1.todo[0]), First(c), true) && Begin(false, t1, t2);
    ReachesNext(e, false, s, t1, t2);
    EnqueueAll(e, t2);
    var t3 := t2.(log := t2.log + t2.issuing, issuing := []);
    ReachesOn(e, false, s, t2, t3);
    forall k | 0 <= k < j - i - 1 ensures Segs(CallLen(t3.todo[k])) <= c { assert t3.todo[k] == calls[i + 1 + k]; }
    var t4 := EnqueueCalls(e, t3, j - i - 1);
    ReachesOn(e, false, s, t3, t4);
    t := Begun(t4, Second(c, d), true);
    assert t4.todo[0] == calls[j] && WorkspaceFits(Second(c, d), m);
    assert Ensure(false, t4, CallLen(t4.todo[0]), Second(c, d), true) && Begin(false, t4, t);
    ReachesNext(e, false, s, t4, t);
    assert t2.jobs == [Job(calls[i].op, First(c))];
  }

  lemma EarlyGrowthTurns(e: Cipher, s: State, m: Memory, op: Op, c: nat, d: nat) returns (t: State)
    requires GrownEarly(s, m, op, c, d) && Ready(op, First(c), m) && Telling(op, m) && c == Segs(op.len)
    ensures Reaches(e, false, s, t) && !Right(e, t, m)
  {
    hide Reaches, OpLaunches, ExecAll, Exec, GhashRoot, OpFits, WorkspaceFits, Reader, Telling, SpecOp, Right, Segs;
    hide Fits;
    var ls, v, root := OpLaunches(op, First(c)), Reader(op, First(c)), GhashRoot(op.len, First(c));
    SegsMonotone(0, op.len);
    var y := OtherHash(e, op, First(c), m);
    OpLaunchesFit(op, First(c), m);
    assert s.log[..v] == ls[..v] && s.log[v..|ls|] == ls[v..];
    forall k | 0 <= k < |ls| ensures Fits(s.log[k], m) { assert s.log[k] == ls[k]; }
    assert s.log[s.ran..s.ran + v] == ls[..v];
    RunSome(e, s, v);
    var m1 := ExecAll(e, ls[..v], m);
    var s1 := s.(mem := m1, ran := v);
    var m2 := Turned(m1, root, y);
    var s2 := s1.(mem := m2);
    assert Scribble(s1, s2) by { assert s2 == Scribbled(s1, root, GHashNode(y, 0)) && !InWorkspace(s1.ws, root); }
    ReachesNext(e, false, s, s1, s2);
    forall k | v <= k < |ls| ensures Fits(s2.log[k], m2) { FitsBySize(s.log[k], m, m2); }
    RunSome(e, s2, |ls| - v);
    assert s2.log[s2.ran..s2.ran + (|ls| - v)] == ls[v..];
    t := s2.(mem := ExecAll(e, ls[v..], m2), ran := |ls|);
    ReachesOn(e, false, s, s2, t);
    FirstJobWrong(e, t, m, op, First(c));
  }

  lemma FirstJobWrong(e: Cipher, s: State, m: Memory, op: Op, ws: Workspace)
    requires s.jobs != [] && s.jobs[0] == Job(op, ws) && OpFits(op, m)
    requires s.ran == |OpLaunches(op, ws)| && s.done == {}
    requires OpFits(op, Memory(m.bytes, m.flags, [])) ==> UserOf(s.mem) != SpecOp(e, op, UserOf(m))
    ensures !Right(e, s, m)
  {
    hide OpLaunches, OpFits, SpecOp, SpecAll;
    OpFitsUser(op, m);
    assert s.jobs[..1] == [Job(op, ws)] && [Job(op, ws)][..0] == [];
    assert AllLaunches([]) == [] && AllLaunches(s.jobs[..1]) == [] + OpLaunches(op, ws) == OpLaunches(op, ws);
    assert JobOps(s.jobs[..1]) == [] + [op];
    SpecAllNone(e, UserOf(m));
    SpecAllSnoc(e, [], op, UserOf(m));
  }

  // ---- The exact condition ----

  // Of a call that outgrows an earlier operation, take the first one behind it
  lemma FirstOutgrown(calls: seq<Call>) returns (i: nat, j: nat)
    requires !Modest(calls)
    ensures i < j < |calls| && calls[i].Run? && Segs(CallLen(calls[i])) < Segs(CallLen(calls[j]))
    ensures forall k :: i < k < j ==> Segs(CallLen(calls[k])) <= Segs(CallLen(calls[i]))
  {
    hide Segs;
    var p: nat, q: nat :| p < q < |calls| && calls[p].Run? && !(Segs(CallLen(calls[q])) <= Segs(CallLen(calls[p])));
    i := p;
    j := Earliest(calls, p, q);
  }

  lemma Earliest(calls: seq<Call>, i: nat, j: nat) returns (k: nat)
    requires i < j < |calls| && Segs(CallLen(calls[i])) < Segs(CallLen(calls[j]))
    ensures i < k <= j && Segs(CallLen(calls[i])) < Segs(CallLen(calls[k]))
    ensures forall n :: i < n < k ==> Segs(CallLen(calls[n])) <= Segs(CallLen(calls[i]))
    decreases j
  {
    hide Segs;
    if n: nat :| i < n < j && Segs(CallLen(calls[i])) < Segs(CallLen(calls[n])) {
      k := Earliest(calls, i, n);
    } else {
      k := j;
    }
  }

  // Same bytes and flags, with a frame of version 1 for an open, and room for two workspaces
  function Stage(op: Op, m: Memory, c: nat, d: nat): Memory {
    var bytes := if op.OpenOp? && op.src < |m.bytes| then m.bytes[op.src := VERSION] else m.bytes;
    Memory(bytes, m.flags, seq(2 * c + 2 * d, _ => GHashNode(ZERO, 0)))
  }

  lemma StageIsSet(op: Op, m: Memory, c: nat, d: nat)
    requires OpFits(op, m) && c == Segs(op.len)
    ensures Ready(op, First(c), Stage(op, m, c, d)) && Telling(op, Stage(op, m, c, d))
  {
    hide Segs;
  }

  lemma StageFits(other: Op, op: Op, m: Memory, c: nat, d: nat)
    requires OpFits(other, m)
    ensures OpFits(other, Stage(op, m, c, d))
  {}

  // Of a program that is not modest some run goes wrong when the runtime does not wait
  lemma ImmodestFails(e: Cipher, calls: seq<Call>, m: Memory) returns (run: seq<State>)
    requires !Modest(calls) && forall c <- calls :: c.Run? ==> OpFits(c.op, m)
    ensures IsRun(e, false, run) && Init(run[0]) && run[0].todo == calls && !Right(e, run[|run| - 1], run[0].mem)
  {
    hide Next, Right, Segs, OpFits, Modest, Telling, WorkspaceFits, OpLaunches, Stage;
    var i, j := FirstOutgrown(calls);
    var op, c, d := calls[i].op, Segs(calls[i].op.len), Segs(CallLen(calls[j]));
    var m0 := Stage(op, m, c, d);
    StageIsSet(op, m, c, d);
    forall k <- calls | k.Run? ensures OpFits(k.op, m0) { StageFits(k.op, op, m, c, d); }
    assert |m0.nodes| == 2 * c + 2 * d by { StageNodes(op, m, c, d); }
    var s := EarlyGrowth(e, calls, i, j, m0, c, d);
    var t := EarlyGrowthTurns(e, s, m0, op, c, d);
    ReachesOn(e, false, Beginning(calls, m0), s, t);
    run :| IsRun(e, false, run) && run[0] == Beginning(calls, m0) && run[|run| - 1] == t;
  }

  lemma StageNodes(op: Op, m: Memory, c: nat, d: nat)
    ensures |Stage(op, m, c, d).nodes| == 2 * c + 2 * d
  {}

  // A program whose pointers fit comes out right in every run without the wait if and only if it is modest
  lemma NoWaitExactly(e: Cipher, calls: seq<Call>, m: Memory)
    requires forall c <- calls :: c.Run? ==> OpFits(c.op, m)
    ensures Modest(calls) <==> AlwaysRight(e, calls)
  {
    hide Next, Right, Init, Modest, OpFits;
    if Modest(calls) {
      forall run: seq<State> | IsRun(e, false, run) && Init(run[0]) && run[0].todo == calls
        ensures Right(e, run[|run| - 1], run[0].mem)
      {
        ModestRuns(e, run);
        TraceRight(e, run);
      }
    } else {
      var run := ImmodestFails(e, calls, m);
    }
  }

  ghost predicate AlwaysRight(e: Cipher, calls: seq<Call>) {
    forall run: seq<State> :: IsRun(e, false, run) && Init(run[0]) && run[0].todo == calls ==>
      Right(e, run[|run| - 1], run[0].mem)
  }
}
