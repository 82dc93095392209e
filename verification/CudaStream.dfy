/** One CUDA stream as the host sees it: launches that are taken or rejected, and an error that sticks. */
module CudaStream {
  import opened GhashTree
  import opened Faults
  import opened Kernels
  import opened Operations

  // What the runtime makes of a launch: it is taken, or rejected, or taken while trouble from elsewhere shows up
  datatype Answer = Taken | Rejected | Disturbed

  type Answers = nat -> Answer

  // What has been enqueued, how many launches were tried, and whether an error has shown up
  datatype Point = Point(log: seq<Launch>, tried: nat, error: bool)

  class Stream {
    var log: seq<Launch>
    var error: bool
    var tried: nat
    const answers: Answers

    constructor (answers: Answers, error: bool)
      ensures Now() == Point([], 0, error) && this.answers == answers
    {
      this.log, this.error, tried, this.answers := [], error, 0, answers;
    }

    function Now(): Point
      reads this
    {
      Point(log, tried, error)
    }

    // A kernel launch; a rejected one leaves nothing on the stream
    method Enqueue(l: Launch)
      modifies this
      ensures Now() == Tried(old(Now()), l, answers)
    {
      var answer := answers(tried);
      tried := tried + 1;
      if answer != Rejected { log := log + [l]; }
      if answer != Taken { error := true; }
    }

    // cudaPeekAtLastError
    function Peek(): (ok: bool)
      reads this`error
    {
      !error
    }
  }

  // ---- Launches one after the other ----

  // One launch
  function Tried(p: Point, l: Launch, answers: Answers): Point {
    var answer := answers(p.tried);
    Point(if answer == Rejected then p.log else p.log + [l], p.tried + 1, p.error || answer != Taken)
  }

  // All of ls, with no check in between
  function Unchecked(p: Point, ls: seq<Launch>, answers: Answers): Point {
    if ls == [] then p else Tried(Unchecked(p, ls[..|ls| - 1], answers), ls[|ls| - 1], answers)
  }

  // The launches of ls, with a check behind each of them that stops at an error
  function Checked(p: Point, ls: seq<Launch>, answers: Answers): Point
    decreases |ls|
  {
    if ls == [] then p else
    var q := Tried(p, ls[0], answers);
    if q.error then q else Checked(q, ls[1..], answers)
  }

  // seal_async checks behind every launch but header and CTR; open_async checks the GHASH launches one by one, and
  // verify and CTR together
  function Issued(p: Point, op: Op, ws: Workspace, answers: Answers): Point {
    if op.SealOp? then
      Checked(Unchecked(p, SealHead(op), answers), SealTail(op, ws), answers)
    else
      var g := Checked(p, OpenGhash(op, ws), answers);
      if g.error then g else Unchecked(g, OpenTail(op, ws), answers)
  }

  // ---- When all goes well ----

  // The runtime takes each of the next n launches, and no error was there before
  ghost predicate Smooth(p: Point, n: nat, answers: Answers) {
    !p.error && forall k :: p.tried <= k < p.tried + n ==> answers(k) == Taken
  }

  lemma {:induction false} UncheckedSmooth(p: Point, ls: seq<Launch>, answers: Answers)
    ensures var q := Unchecked(p, ls, answers);
      && q.tried == p.tried + |ls| && (!q.error <==> Smooth(p, |ls|, answers))
      && (!q.error ==> q.log == p.log + ls)
  {
    if ls != [] {
      UncheckedSmooth(p, ls[..|ls| - 1], answers);
      assert ls == ls[..|ls| - 1] + [ls[|ls| - 1]];
    } else {
      assert p.log + ls == p.log;
    }
  }

  lemma {:induction false} CheckedSmooth(p: Point, ls: seq<Launch>, answers: Answers)
    requires ls != []
    ensures var q := Checked(p, ls, answers);
      && (!q.error <==> Smooth(p, |ls|, answers)) && (!q.error ==> q.tried == p.tried + |ls| && q.log == p.log + ls)
    decreases |ls|
  {
    var q := Tried(p, ls[0], answers);
    assert ls == [ls[0]] + ls[1..];
    if !q.error && |ls| > 1 { CheckedSmooth(q, ls[1..], answers); }
  }

  lemma UncheckedThenChecked(p: Point, xs: seq<Launch>, ys: seq<Launch>, answers: Answers)
    requires ys != []
    ensures var q := Checked(Unchecked(p, xs, answers), ys, answers);
      (!q.error <==> Smooth(p, |xs + ys|, answers)) && (!q.error ==> q.log == p.log + (xs + ys))
  {
    hide Smooth, Checked, Unchecked;
    var q := Unchecked(p, xs, answers);
    UncheckedSmooth(p, xs, answers);
    CheckedSmooth(q, ys, answers);
    SmoothParts(p, q, |xs|, |ys|, answers);
    assert p.log + xs + ys == p.log + (xs + ys);
  }

  lemma CheckedThenUnchecked(p: Point, xs: seq<Launch>, ys: seq<Launch>, answers: Answers)
    requires xs != []
    ensures var g := Checked(p, xs, answers);
      var q := if g.error then g else Unchecked(g, ys, answers);
      (!q.error <==> Smooth(p, |xs + ys|, answers)) && (!q.error ==> q.log == p.log + (xs + ys))
  {
    hide Smooth, Checked, Unchecked;
    var g := Checked(p, xs, answers);
    CheckedSmooth(p, xs, answers);
    UncheckedSmooth(g, ys, answers);
    SmoothParts(p, g, |xs|, |ys|, answers);
    assert p.log + xs + ys == p.log + (xs + ys);
  }

  // An operation ends without an error exactly when the runtime takes every launch of it and none was there before,
  // and then all its launches are on the stream
  lemma IssuedSmooth(p: Point, op: Op, ws: Workspace, answers: Answers)
    ensures var q := Issued(p, op, ws, answers);
      && (!q.error <==> Smooth(p, |OpLaunches(op, ws)|, answers))
      && (!q.error ==> q.log == p.log + OpLaunches(op, ws))
  {
    hide SealHead, SealTail, OpenGhash, OpenTail, OpLaunches, Smooth, Checked, Unchecked;
    LaunchParts(op, ws);
    if op.SealOp? {
      UncheckedThenChecked(p, SealHead(op), SealTail(op, ws), answers);
    } else {
      CheckedThenUnchecked(p, OpenGhash(op, ws), OpenTail(op, ws), answers);
    }
  }

  lemma SmoothParts(p: Point, q: Point, m: nat, n: nat, answers: Answers)
    requires (!q.error <==> Smooth(p, m, answers))
    requires !q.error ==> q.tried == p.tried + m
    ensures Smooth(p, m + n, answers) <==> Smooth(q, n, answers)
    ensures Smooth(q, n, answers) ==> !q.error
  {}

  lemma LaunchParts(op: Op, ws: Workspace)
    ensures if op.SealOp? then OpLaunches(op, ws) == SealHead(op) + SealTail(op, ws) && SealTail(op, ws) != []
            else OpLaunches(op, ws) == OpenGhash(op, ws) + OpenTail(op, ws) && OpenGhash(op, ws) != []
  {
    hide GhashRoot, CtrLaunches, CombineLaunches, OpLaunches;
    if op.SealOp? { SealIs(op, ws); } else { OpenIs(op, ws); }
  }

  // How many launches an operation takes
  function SealTotal(len: nat): nat { (if len == 0 then 3 else 4) + Levels(Segs(len)) }
  function OpenTotal(len: nat): nat { (if len == 0 then 2 else 3) + Levels(Segs(len)) }
  function LaunchTotal(op: Op): nat { if op.SealOp? then SealTotal(op.len) else OpenTotal(op.len) }

  lemma LaunchCount(op: Op, ws: Workspace)
    ensures |OpLaunches(op, ws)| == LaunchTotal(op)
  {
    SegsMonotone(0, op.len);
    PingPong(ws.a, ws.b, Segs(op.len));
  }

  // ---- What an error leaves ----

  lemma {:induction false} UncheckedSub(p: Point, ls: seq<Launch>, answers: Answers)
    ensures var q := Unchecked(p, ls, answers);
      p.log <= q.log && Sub(q.log[|p.log|..], ls) && (p.error ==> q.error)
  {
    if ls != [] {
      var front, l := ls[..|ls| - 1], ls[|ls| - 1];
      UncheckedSub(p, front, answers);
      var q := Unchecked(p, front, answers);
      SubNext(q.log[|p.log|..], front, l);
      assert ls == front + [l];
      assert (q.log + [l])[|p.log|..] == q.log[|p.log|..] + [l];
    }
  }

  lemma {:induction false} CheckedPrefix(p: Point, ls: seq<Launch>, answers: Answers)
    ensures var q := Checked(p, ls, answers);
      && p.log <= q.log <= p.log + ls
      && (p.error ==> q.error && |q.log| <= |p.log| + 1)
    decreases |ls|
  {
    if ls != [] {
      var q := Tried(p, ls[0], answers);
      assert p.log + ls == p.log + [ls[0]] + ls[1..];
      if !q.error { CheckedPrefix(q, ls[1..], answers); }
    }
  }

  // What an operation leaves on the stream, whatever the runtime rejects
  lemma IssuedPart(p: Point, op: Op, ws: Workspace, answers: Answers)
    ensures p.log <= Issued(p, op, ws, answers).log && OpPart(op, ws, Issued(p, op, ws, answers).log[|p.log|..])
  {
    hide SealHead, SealTail, OpenGhash, OpenTail, Sub, Smooth, Checked, Unchecked;
    if op.SealOp? {
      var q := Unchecked(p, SealHead(op), answers);
      UncheckedSub(p, SealHead(op), answers);
      UncheckedSmooth(p, SealHead(op), answers);
      CheckedPrefix(q, SealTail(op, ws), answers);
      var r := Checked(q, SealTail(op, ws), answers);
      var h, g := q.log[|p.log|..], r.log[|q.log|..];
      assert r.log[|p.log|..] == h + g && g <= SealTail(op, ws);
    } else {
      var q := Checked(p, OpenGhash(op, ws), answers);
      CheckedPrefix(p, OpenGhash(op, ws), answers);
      var g := q.log[|p.log|..];
      if q.error {
        var t: seq<Launch> := [];
        SubAll(OpenTail(op, ws));
        assert q.log[|p.log|..] == g + t && g <= OpenGhash(op, ws);
      } else {
        UncheckedSub(q, OpenTail(op, ws), answers);
        LaunchParts(op, ws);
        CheckedSmooth(p, OpenGhash(op, ws), answers);
        var r := Unchecked(q, OpenTail(op, ws), answers);
        var t := r.log[|q.log|..];
        assert r.log[|p.log|..] == g + t && g == OpenGhash(op, ws);
      }
    }
  }

  // What a call that was meant to enqueue all launches of op has enqueued
  ghost predicate Enqueued(op: Op, ws: Workspace, before: seq<Launch>, after: seq<Launch>) {
    before <= after && OpPart(op, ws, after[|before|..])
  }

  // after is what op leaves behind before: without an error, all its launches
  ghost predicate Sent(op: Op, ws: Workspace, before: Point, after: Point, answers: Answers) {
    && after == Issued(before, op, ws, answers)
    && (!after.error ==> after.log == before.log + OpLaunches(op, ws))
  }

  // The same in one place
  lemma IssuedFacts(p: Point, op: Op, ws: Workspace, answers: Answers)
    ensures var q := Issued(p, op, ws, answers);
      && (!q.error <==> Smooth(p, LaunchTotal(op), answers))
      && (!q.error ==> q.log == p.log + OpLaunches(op, ws))
      && Enqueued(op, ws, p.log, q.log)
  {
    hide Issued, OpLaunches, OpPart, Smooth, LaunchTotal;
    IssuedSmooth(p, op, ws, answers);
    IssuedPart(p, op, ws, answers);
    LaunchCount(op, ws);
  }

  // ---- Steps for the calls ----

  lemma {:induction false} CheckedAppend(p: Point, xs: seq<Launch>, ys: seq<Launch>, answers: Answers)
    requires xs != []
    ensures var q := Checked(p, xs, answers);
      Checked(p, xs + ys, answers) == if q.error then q else Checked(q, ys, answers)
    decreases |xs|
  {
    var q := Tried(p, xs[0], answers);
    assert (xs + ys)[1..] == xs[1..] + ys;
    if |xs| > 1 {
      CheckedAppend(q, xs[1..], ys, answers);
    } else {
      assert xs[1..] + ys == ys;
    }
  }

  lemma GhashNotEmpty(text: nat, len: nat, ws: Workspace)
    ensures GhashLaunches(text, len, ws) != []
  {}

  lemma CheckedOne(p: Point, l: Launch, answers: Answers)
    ensures Checked(p, [l], answers) == Tried(p, l, answers)
  {}

  lemma UncheckedOne(p: Point, l: Launch, answers: Answers)
    ensures Unchecked(p, [l], answers) == Tried(p, l, answers)
  {
    assert [l][..0] == [];
  }

  lemma UncheckedTwo(p: Point, l: Launch, m: Launch, answers: Answers)
    ensures Unchecked(p, [l] + [m], answers) == Tried(Tried(p, l, answers), m, answers)
  {
    UncheckedOne(p, l, answers);
    assert ([l] + [m])[..1] == [l];
  }
}
