/** Runs can always be brought to an end, and why a growing workspace must wait for the device. */
module Progress {
  import opened Blocks
  import opened GhashTree
  import opened Gcm
  import opened Kernels
  import opened Launches
  import opened Operations
  import opened Streams

  // ---- From one state to another ----

  ghost predicate Reaches(e: Cipher, waits: bool, s: State, t: State) {
    exists run :: IsRun(e, waits, run) && run[0] == s && run[|run| - 1] == t
  }

  lemma ReachesSelf(e: Cipher, waits: bool, s: State)
    ensures Reaches(e, waits, s, s)
  {
    assert IsRun(e, waits, [s]);
  }

  lemma ReachesNext(e: Cipher, waits: bool, s: State, t: State, u: State)
    requires Reaches(e, waits, s, t) && Next(e, waits, t, u)
    ensures Reaches(e, waits, s, u)
  {
    hide Next;
    var run :| IsRun(e, waits, run) && run[0] == s && run[|run| - 1] == t;
    assert IsRun(e, waits, run + [u]);
  }

  lemma JoinRuns(e: Cipher, waits: bool, p: seq<State>, q: seq<State>)
    requires IsRun(e, waits, p) && IsRun(e, waits, q) && p[|p| - 1] == q[0]
    ensures IsRun(e, waits, p + q[1..]) && (p + q[1..])[|p + q[1..]| - 1] == q[|q| - 1]
  {
    hide Next;
    var run := p + q[1..];
    forall i | 0 < i < |run| ensures Next(e, waits, run[i - 1], run[i]) {
      if i >= |p| { assert run[i] == q[i - |p| + 1] && run[i - 1] == q[i - |p|]; }
    }
  }

  lemma ReachesOn(e: Cipher, waits: bool, s: State, t: State, u: State)
    requires Reaches(e, waits, s, t) && Reaches(e, waits, t, u)
    ensures Reaches(e, waits, s, u)
  {
    hide Next;
    var p: seq<State> :| IsRun(e, waits, p) && p[0] == s && p[|p| - 1] == t;
    var q: seq<State> :| IsRun(e, waits, q) && q[0] == t && q[|q| - 1] == u;
    JoinRuns(e, waits, p, q);
  }

  // ---- Every step but scribbling leaves less to do ----

  // Cells the running launch has still to store
  ghost function Unstored(s: State): set<Cell> {
    if s.ran >= |s.log| then {} else
    (set a | 0 <= a < |s.mem.bytes| && WritesByte(s.log[s.ran], a) && ByteCell(a) !in s.done :: ByteCell(a))
    + (set p | 0 <= p < |s.mem.flags| && WritesFlag(s.log[s.ran], p) && FlagCell(p) !in s.done :: FlagCell(p))
    + (set i | 0 <= i < |s.mem.nodes| && WritesNode(s.log[s.ran], i) && NodeCell(i) !in s.done :: NodeCell(i))
  }

  lemma UnstoredIs(s: State, c: Cell)
    requires s.ran < |s.log|
    ensures c in Unstored(s) <==> InMemory(s.mem, c) && Writes(s.log[s.ran], c) && c !in s.done
  {}

  // Calls, then launches to enqueue, then launches to run, then cells to store
  ghost predicate LessToDo(t: State, s: State) {
    (|s.todo|, |s.issuing|, |s.log| - s.ran, |Unstored(s)|
     decreases to |t.todo|, |t.issuing|, |t.log| - t.ran, |Unstored(t)|)
  }

  lemma NextDecreases(e: Cipher, waits: bool, s: State, t: State)
    requires Next(e, waits, s, t) && !Scribble(s, t)
    ensures LessToDo(t, s)
  {
    hide Unstored, MayLoad, Writes, OpLaunches, Ensure, Exec, Scribble;
    if StoreStep(e, s, t) {
      var c: Cell, x: Memory :| InMemory(s.mem, c) && Writes(s.log[s.ran], c) && c !in s.done && MayLoad(s, c, x)
        && t == Stored(e, s, c, x);
      StoreDecreases(e, s, c, x);
    }
  }

  lemma StoreDecreases(e: Cipher, s: State, c: Cell, x: Memory)
    requires s.ran < |s.log| && InMemory(s.mem, c) && Writes(s.log[s.ran], c) && c !in s.done && SameSizes(s.mem, x)
    ensures Unstored(Stored(e, s, c, x)) == Unstored(s) - {c}
    ensures |Unstored(Stored(e, s, c, x))| < |Unstored(s)|
  {
    hide Unstored, Writes, Exec;
    var t := Stored(e, s, c, x);
    UnstoredIs(s, c);
    forall d: Cell ensures d in Unstored(t) <==> d in Unstored(s) - {c} {
      UnstoredIs(s, d);
      UnstoredIs(t, d);
    }
  }

  // ---- A running launch can finish ----

  function Finished(s: State, m: Memory): State { s.(mem := m, ran := s.ran + 1, done := {}) }

  // If the launch is so far what its stores made of base, it ends as its whole effect on base
  lemma FinishLaunch(e: Cipher, waits: bool, s: State, base: Memory) returns (m: Memory)
    requires s.ran < |s.log| && SameSizes(base, s.mem)
    ensures SameSizes(m, s.mem) && Reaches(e, waits, s, Finished(s, m))
    ensures var l := s.log[s.ran];
      Fits(l, base) && AllWritten(l, s.done) && s.mem == Partial(e, l, base, s.done) ==> m == Exec(e, l, base)
    decreases |Unstored(s)|
  {
    hide Unstored, MayLoad, Exec, Partial, Reaches, Fits, Stored, Begin, Push, Scribble;
    var l := s.log[s.ran];
    if exists c :: c in Unstored(s) {
      var c :| c in Unstored(s);
      UnstoredIs(s, c);
      FreshLoads(s, c);
      var t := Stored(e, s, c, s.mem);
      StoreIsNext(e, waits, s, c);
      StoreDecreases(e, s, c, s.mem);
      StoreShape(e, s, c, base);
      m := FinishLaunch(e, waits, t, base);
      FirstStep(e, waits, s, t);
      ReachesOn(e, waits, s, t, Finished(s, m));
    } else {
      m := s.mem;
      forall c: Cell | InMemory(s.mem, c) && Writes(l, c) ensures c in s.done { UnstoredIs(s, c); }
      assert Retire(s, Finished(s, m));
      FirstStep(e, waits, s, Finished(s, m));
      if Fits(l, base) && AllWritten(l, s.done) && s.mem == Partial(e, l, base, s.done) {
        forall c: Cell | InMemory(base, c) && Writes(l, c) ensures c in s.done { assert InMemory(s.mem, c); }
        PartialIsExec(e, l, base, s.done);
      }
    }
  }

  lemma FirstStep(e: Cipher, waits: bool, s: State, t: State)
    requires Next(e, waits, s, t)
    ensures Reaches(e, waits, s, t)
  {
    hide Next;
    ReachesSelf(e, waits, s);
    ReachesNext(e, waits, s, s, t);
  }

  // Loads just before the store are allowed
  lemma FreshLoads(s: State, c: Cell)
    requires s.ran < |s.log| && InMemory(s.mem, c)
    ensures MayLoad(s, c, s.mem)
  {}

  lemma StoreIsNext(e: Cipher, waits: bool, s: State, c: Cell)
    requires s.ran < |s.log| && InMemory(s.mem, c) && Writes(s.log[s.ran], c) && c !in s.done && MayLoad(s, c, s.mem)
    ensures Next(e, waits, s, Stored(e, s, c, s.mem))
  {
    hide MayLoad, Stored, Writes;
    assert StoreStep(e, s, Stored(e, s, c, s.mem));
  }

  lemma StoreShape(e: Cipher, s: State, c: Cell, base: Memory)
    requires s.ran < |s.log| && InMemory(s.mem, c) && Writes(s.log[s.ran], c) && c !in s.done && SameSizes(base, s.mem)
    ensures var t := Stored(e, s, c, s.mem);
      && t == s.(mem := t.mem, done := t.done) && SameSizes(t.mem, s.mem)
      && (var l := s.log[s.ran];
          Fits(l, base) && AllWritten(l, s.done) && s.mem == Partial(e, l, base, s.done) ==>
            AllWritten(l, t.done) && t.mem == Partial(e, l, base, t.done))
  {
    hide Exec, Fits, Writes;
    var l := s.log[s.ran];
    if Fits(l, base) && AllWritten(l, s.done) && s.mem == Partial(e, l, base, s.done) {
      LateStore(e, l, base, s.done, s.done, c);
    }
  }

  // ---- Every run can be extended to its end ----

  // Node memory holds two buffers for every call
  ghost predicate Roomy(s: State) { forall c <- s.todo :: 2 * Segs(CallLen(c)) <= |s.mem.nodes| }

  // From every state a quiescent one can be reached, and with room for the workspaces without refusing anything
  lemma CanFinish(e: Cipher, s: State) returns (t: State)
    requires s.ran <= |s.log|
    ensures Reaches(e, true, s, t) && Quiescent(t)
    ensures Roomy(s) ==> t.refused == s.refused
    decreases |s.todo|, |s.issuing|, |s.log| - s.ran
  {
    hide Reaches, IsRun, Ensure, OpLaunches, Segs, StoreStep, Retire, Scribble;
    if s.ran < |s.log| {
      var m := FinishLaunch(e, true, s, s.mem);
      t := CanFinish(e, Finished(s, m));
      ReachesOn(e, true, s, Finished(s, m), t);
    } else if s.issuing != [] {
      var u := s.(log := s.log + [s.issuing[0]], issuing := s.issuing[1..]);
      FirstStep(e, true, s, u);
      t := CanFinish(e, u);
      ReachesOn(e, true, s, u, t);
    } else if s.todo != [] {
      var ws, ok := Grant(s);
      var u := Begun(s, ws, ok);
      assert Begin(true, s, u);
      FirstStep(e, true, s, u);
      t := CanFinish(e, u);
      ReachesOn(e, true, s, u, t);
    } else {
      t := s;
      ReachesSelf(e, true, s);
    }
  }

  // Every trace is the beginning of one that ends
  lemma EveryTraceEnds(e: Cipher, trace: seq<State>)
    requires IsTrace(e, trace)
    ensures exists longer: seq<State> ::
      && IsTrace(e, longer) && trace <= longer && Quiescent(longer[|longer| - 1])
      && (Roomy(trace[|trace| - 1]) ==> longer[|longer| - 1].refused == trace[|trace| - 1].refused)
  {
    hide Next, Init, OnTrack, NoUseAfterFree, Roomy;
    var s := trace[|trace| - 1];
    RunKeepsInv(e, trace);
    var t := CanFinish(e, s);
    var q: seq<State> :| IsRun(e, true, q) && q[0] == s && q[|q| - 1] == t;
    JoinRuns(e, true, trace, q);
    assert IsTrace(e, trace + q[1..]) && trace <= trace + q[1..];
  }

  // What ensure_workspace may answer once the device has drained
  lemma Grant(s: State) returns (ws: Workspace, ok: bool)
    requires Drained(s) && s.todo != []
    ensures Ensure(true, s, CallLen(s.todo[0]), ws, ok)
    ensures Roomy(s) ==> ok
  {
    hide Segs;
    var n := Segs(CallLen(s.todo[0]));
    if n <= s.ws.capacity {
      ws, ok := s.ws, true;
    } else if 2 * n <= |s.mem.nodes| {
      ws, ok := Workspace(0, n, n), true;
    } else {
      ws, ok := s.ws, false;
    }
  }

  // A run that has not finished is never stuck
  lemma NeverStuck(e: Cipher, s: State)
    requires s.ran <= |s.log| && !Quiescent(s)
    ensures exists t :: Next(e, true, s, t) && !Scribble(s, t)
  {
    hide Unstored, Ensure, OpLaunches, MayLoad, Writes, Exec;
    if s.ran < |s.log| {
      if exists c :: c in Unstored(s) {
        var c :| c in Unstored(s);
        UnstoredIs(s, c);
        FreshLoads(s, c);
        StoreIsNext(e, true, s, c);
        assert !Scribble(s, Stored(e, s, c, s.mem));
      } else {
        forall c: Cell | InMemory(s.mem, c) && Writes(s.log[s.ran], c) ensures c in s.done { UnstoredIs(s, c); }
        var t := Finished(s, s.mem);
        assert Retire(s, t) && Next(e, true, s, t) && t.ran != s.ran;
      }
    } else if s.issuing != [] {
      var t := s.(log := s.log + [s.issuing[0]], issuing := s.issuing[1..]);
      assert Push(s, t) && Next(e, true, s, t) && t.log != s.log;
    } else {
      var ws, ok := Grant(s);
      var t := Begun(s, ws, ok);
      assert Begin(true, s, t) && Next(e, true, s, t) && |t.todo| != |s.todo|;
    }
  }

  // ---- Growth that does not wait ----

  // A seal of nothing is enqueued; before the device starts on it, a reserve replaces the workspace. The freed buffer
  // goes to somebody else, who overwrites the hash between the segment and the finalize kernel.
  const OLD := Workspace(0, 1, 1)
  const NEW := Workspace(2, 4, 2)

  function Blank(): Memory { Memory(Zeros(OVERHEAD), [], seq(6, _ => GHashNode(ZERO, 0))) }

  function EmptySeal(iv: Iv): Op { SealOp(0, 0, 0, iv) }

  function EmptySealLaunches(iv: Iv): seq<Launch> { [Header(0, iv), Segment(HEADER_LEN, 0, 0), Finalize(0, 0, 0)] }

  lemma EmptySealIs(iv: Iv)
    ensures OpLaunches(EmptySeal(iv), OLD) == EmptySealLaunches(iv)
    ensures Segs(0) == 1 && Segs(1024) == 2
  {}

  function Outset(iv: Iv): State {
    State(Blank(), [], 0, {}, [], [Run(EmptySeal(iv)), Reserve(1024)], Workspace(0, 0, 0), [], 0)
  }

  // All is enqueued, the workspace is the new one, and the device has finished some launches
  function Grown(iv: Iv, m: Memory, ran: nat): State {
    State(m, EmptySealLaunches(iv), ran, {}, [], [], NEW, [Job(EmptySeal(iv), OLD)], 0)
  }

  lemma HastyHost(e: Cipher, iv: Iv)
    ensures Init(Outset(iv)) && Reaches(e, false, Outset(iv), Grown(iv, Blank(), 0))
  {
    hide Reaches, OpLaunches, Segs, StoreStep, Retire, Scribble;
    EmptySealIs(iv);
    var s, ls := Outset(iv), EmptySealLaunches(iv);
    var s1 := Begun(s, OLD, true);
    assert Ensure(false, s, 0, OLD, true) && Begin(false, s, s1);
    FirstStep(e, false, s, s1);
    var s2 := s1.(log := ls[..1], issuing := ls[1..]);
    assert Push(s1, s2);
    ReachesNext(e, false, s, s1, s2);
    var s3 := s1.(log := ls[..2], issuing := ls[2..]);
    assert Push(s2, s3);
    ReachesNext(e, false, s, s2, s3);
    var s4 := s1.(log := ls, issuing := []);
    assert Push(s3, s4);
    ReachesNext(e, false, s, s3, s4);
    assert Ensure(false, s4, 1024, NEW, true) && Begin(false, s4, Begun(s4, NEW, true));
    assert Begun(s4, NEW, true) == Grown(iv, Blank(), 0);
    ReachesNext(e, false, s, s4, Grown(iv, Blank(), 0));
  }

  lemma HastyLaunch(e: Cipher, iv: Iv, m: Memory, ran: nat)
    requires ran < 3 && Fits(EmptySealLaunches(iv)[ran], m)
    ensures Reaches(e, false, Grown(iv, m, ran), Grown(iv, Exec(e, EmptySealLaunches(iv)[ran], m), ran + 1))
  {
    hide Reaches, Exec, Fits;
    PartialNone(e, EmptySealLaunches(iv)[ran], m);
    var m' := FinishLaunch(e, false, Grown(iv, m, ran), m);
  }

  // The device finishes the seal on a hash that has turned into y
  lemma HastyDevice(e: Cipher, iv: Iv, y: Block128) returns (m: Memory)
    ensures Reaches(e, false, Grown(iv, Blank(), 0), Grown(iv, m, 3))
    ensures |m.bytes| == OVERHEAD && m.bytes[HEADER_LEN..] == Mask(e, iv, y)
  {
    hide Reaches, Exec, Mask;
    var ls, m0 := EmptySealLaunches(iv), Blank();
    var m1 := Exec(e, ls[0], m0);
    HastyLaunch(e, iv, m0, 0);
    HeaderExec(e, 0, iv, m0);
    var m2 := Exec(e, ls[1], m1);
    HastyLaunch(e, iv, m1, 1);
    SegmentStep(e, HEADER_LEN, 0, 0, m1);
    var m3 := m2.(nodes := m2.nodes[0 := GHashNode(y, 1)]);
    assert Scribble(Grown(iv, m2, 2), Grown(iv, m3, 2)) by {
      assert !InWorkspace(NEW, 0) && Grown(iv, m3, 2) == Scribbled(Grown(iv, m2, 2), 0, GHashNode(y, 1));
    }
    m := Exec(e, ls[2], m3);
    HastyLaunch(e, iv, m3, 2);
    HastyTag(e, iv, m3);
    ReachesOn(e, false, Grown(iv, m0, 0), Grown(iv, m1, 1), Grown(iv, m2, 2));
    ReachesNext(e, false, Grown(iv, m0, 0), Grown(iv, m2, 2), Grown(iv, m3, 2));
    ReachesOn(e, false, Grown(iv, m0, 0), Grown(iv, m3, 2), Grown(iv, m, 3));
  }

  lemma HastyTag(e: Cipher, iv: Iv, m: Memory)
    requires Fits(Finalize(0, 0, 0), m) && |m.bytes| == OVERHEAD && IvAt(m, 1) == iv
    ensures Exec(e, Finalize(0, 0, 0), m).bytes[HEADER_LEN..] == Mask(e, iv, m.nodes[0].y)
  {
    hide Mask;
  }

  // The finished state s does not have the effects of its jobs on memory m0
  ghost predicate WrongEnd(e: Cipher, s: State, m0: Memory) {
    Quiescent(s) && s.refused == 0 && UserOf(s.mem) != SpecAll(e, JobOps(s.jobs), UserOf(m0))
  }

  // Without the wait a finished run need not have the effects of its operations: some run seals a wrong tag
  lemma HastyGrowthFails(e: Cipher, iv: Iv)
    ensures exists run: seq<State> ::
      IsRun(e, false, run) && Init(run[0]) && WrongEnd(e, run[|run| - 1], run[0].mem)
  {
    hide Next, Init, WrongEnd, Mask, EmptyHash, OtherHash, EmptySealLaunches, Zeros;
    HastyHost(e, iv);
    var y := OtherHash(e);
    var m := HastyDevice(e, iv, y);
    ReachesOn(e, false, Outset(iv), Grown(iv, Blank(), 0), Grown(iv, m, 3));
    WrongTag(e, iv, y, m);
    var run: seq<State> :| IsRun(e, false, run) && run[0] == Outset(iv) && run[|run| - 1] == Grown(iv, m, 3);
    assert run[0].mem == Blank();
  }

  function EmptyHash(e: Cipher): Block128 { Ghash(HashKey(e), BlocksOf(HashInput([]))) }

  function OtherHash(e: Cipher): (y: Block128)
    ensures y != EmptyHash(e)
  {
    hide EmptyHash;
    if EmptyHash(e) == ZERO then ONE else ZERO
  }

  lemma WrongTag(e: Cipher, iv: Iv, y: Block128, m: Memory)
    requires y != EmptyHash(e) && |m.bytes| == OVERHEAD && m.bytes[HEADER_LEN..] == Mask(e, iv, y)
    ensures WrongEnd(e, Grown(iv, m, 3), Blank())
  {
    hide Mask, SealFrame, SpecAll, SpecOp, Ghash, HashKey, BlocksOf, HashInput, Crypt, OpFits;
    var u, op := UserOf(Blank()), EmptySeal(iv);
    assert JobOps(Grown(iv, m, 3).jobs) == [op] == [] + [op];
    SpecAllNone(e, u);
    SpecAllSnoc(e, [], op, u);
    SealedTag(e, iv);
    if UserOf(m) == SpecOp(e, op, u) { MaskInjective(e, iv, EmptyHash(e), y); }
  }

  lemma SealedTag(e: Cipher, iv: Iv)
    ensures OpFits(EmptySeal(iv), Memory(Zeros(OVERHEAD), [], []))
    ensures SpecOp(e, EmptySeal(iv), User(Zeros(OVERHEAD), [])).bytes[HEADER_LEN..] == Mask(e, iv, EmptyHash(e))
  {
    hide Mask, Ghash, HashKey, BlocksOf, HashInput;
    assert Zeros(OVERHEAD)[0..0] == [] == Crypt(e, iv, []);
  }
}
