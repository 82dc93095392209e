/** Who frees what: device memory over every sequence of native and Python calls. */
module Ownership {
  import opened Bytes
  import opened CudaStream
  import opened Kernels
  import opened Operations
  import opened Gcm
  import opened Host

  datatype Command =
    | Create(key: bool, out: bool, keyLen: nat, answers: CreateAnswers)
    | Destroy
    | Reserve(len: nat, answerA: Option<nat>, answerB: Option<nat>)
    | Seal(src: Option<nat>, len: nat, dst: Option<nat>, capacity: nat, iv: Option<Iv>,
           answerA: Option<nat>, answerB: Option<nat>)
    | Open(src: Option<nat>, frameLen: nat, dst: Option<nat>, len: nat, flag: Option<nat>,
           answerA: Option<nat>, answerB: Option<nat>)

  // The live handles after a command: one more when a creation succeeds, one less when there was one to destroy
  function CountAfter(n: nat, c: Command, code: ReturnCode): nat {
    if c.Create? && code == OK then n + 1 else if c.Destroy? && n > 0 then n - 1 else n
  }

  function HandleCount(n: nat, script: seq<Command>, codes: seq<ReturnCode>): nat
    requires |script| == |codes|
  {
    if script == [] then n else
    var k := |script| - 1;
    CountAfter(HandleCount(n, script[..k], codes[..k]), script[k], codes[k])
  }

  // The native library, with the handles its callers hold
  class Engine {
    const heap: Heap
    var handles: set<KeyHandle>

    // Live allocations are exactly those of live handles, and no two handles share one
    ghost predicate Valid()
      reads this, heap, handles
    {
      && heap.Valid()
      && (forall h <- handles :: h.Valid() && h.Owned() <= heap.live)
      && (forall g, h | g in handles && h in handles && g != h :: g.Owned() !! h.Owned())
      && (forall b <- heap.live :: exists h :: h in handles && b in h.Owned())
    }

    constructor ()
      ensures Valid() && handles == {} && fresh(heap) && heap.live == {} && heap.freed == []
    {
      heap := new Heap();
      handles := {};
    }

    method Create(key: bool, out: bool, keyLen: nat, a: CreateAnswers) returns (rc: ReturnCode, h: KeyHandle?)
      requires Valid()
      modifies this, heap
      ensures Valid() && (rc == OK <==> h != null) && (rc == ERR_ARGUMENT <==> !key || !out || keyLen != 16)
      ensures rc == OK <==> key && out && keyLen == 16 && Created(old(heap.live), a)
      ensures rc == ERR_CUDA <==> (
        && key && out && keyLen == 16 && a.newOk
        && (!a.symbolOk || (TablesGranted(old(heap.live), a) && !(a.copyOk && a.syncOk))))
      ensures h != null ==> fresh(h) && handles == old(handles) + {h}
      ensures h == null ==> handles == old(handles) && heap.live == old(heap.live)
    {
      hide KeyHandle.Valid, KeyHandle.Owned, Heap.Valid;
      rc, h := KeyCreate(heap, key, out, keyLen, a);
      if h != null {
        handles := handles + {h};
        ValidAfterCreate(h);
      } else {
        ValidUnmoved();
      }
    }

    method Destroy(h: KeyHandle?) returns (rc: ReturnCode)
      requires Valid() && (h != null ==> h in handles)
      modifies this, heap
      ensures Valid() && rc == OK
      ensures handles == old(handles) - {h}
      ensures h == null ==> heap.live == old(heap.live)
    {
      hide KeyHandle.Valid, KeyHandle.Owned, Heap.Valid;
      rc := KeyDestroy(heap, h);
      if h != null {
        handles := handles - {h};
        ValidAfterDestroy(h);
      } else {
        ValidUnmoved();
      }
    }

    method Reserve(h: KeyHandle?, len: nat, answerA: Option<nat>, answerB: Option<nat>) returns (rc: ReturnCode)
      requires Valid() && (h != null ==> h in handles)
      modifies heap, h
      ensures rc == Answered(h != null, h != null && h.Granted(heap, len, answerA, answerB), true)
      ensures rc == OK ==> h.Valid() && Segs(len) <= h.nodeCapacity
      ensures rc == OK && old(h.nodeCapacity) >= Segs(len) ==> h.Ws() == old(h.Ws())
      ensures rc == OK && old(h.nodeCapacity) < Segs(len) ==>
        h.Ws() == Workspace(answerA.value, answerB.value, Segs(len))
      ensures rc != OK ==> heap.live == old(heap.live)
      ensures h != null ==> h.nodeCapacity >= old(h.nodeCapacity)
      ensures Valid() && handles == old(handles)
    {
      hide KeyHandle.Valid, KeyHandle.Owned, Heap.Valid;
      if h == null {
        return ERR_ARGUMENT;
      }
      rc := h.EnsureWorkspace(heap, len, answerA, answerB);
      ValidAfterGrowth(h);
    }

    method Seal(h: KeyHandle?, stream: Stream, src: Option<nat>, len: nat, dst: Option<nat>, dstCapacity: nat,
                iv: Option<Iv>, answerA: Option<nat>, answerB: Option<nat>)
      returns (rc: ReturnCode)
      requires Valid() && (h != null ==> h in handles)
      modifies heap, h, stream
      ensures rc == Answered(
        SealArguments(h != null, src, len, dst, dstCapacity, iv), h != null && h.Granted(heap, len, answerA, answerB),
        Smooth(old(stream.Now()), SealTotal(len), stream.answers))
      ensures rc in {OK, ERR_CUDA} ==>
        && h.Valid() && Segs(len) <= h.nodeCapacity
        && (rc == OK <==> !stream.error)
        && Sent(SealOp(src.value, len, dst.value, iv.value), h.Ws(), old(stream.Now()), stream.Now(), stream.answers)
      ensures rc !in {OK, ERR_CUDA} ==> heap.live == old(heap.live) && stream.Now() == old(stream.Now())
      ensures Valid() && handles == old(handles)
    {
      hide OpLaunches, Enqueued, Issued, Smooth, KeyHandle.Valid, KeyHandle.Owned, Heap.Valid;
      rc := SealAsync(h, heap, stream, src, len, dst, dstCapacity, iv, answerA, answerB);
      if h != null { ValidAfterGrowth(h); } else { ValidUnmoved(); }
    }

    method Open(h: KeyHandle?, stream: Stream, src: Option<nat>, frameLen: nat, dst: Option<nat>, len: nat,
                flag: Option<nat>, answerA: Option<nat>, answerB: Option<nat>)
      returns (rc: ReturnCode)
      requires Valid() && (h != null ==> h in handles)
      modifies heap, h, stream
      ensures rc == Answered(
        OpenArguments(h != null, src, frameLen, dst, len, flag), h != null && h.Granted(heap, len, answerA, answerB),
        Smooth(old(stream.Now()), OpenTotal(len), stream.answers))
      ensures rc in {OK, ERR_CUDA} ==>
        && h.Valid() && Segs(len) <= h.nodeCapacity
        && (rc == OK <==> !stream.error)
        && Sent(OpenOp(src.value, len, dst.value, flag.value), h.Ws(), old(stream.Now()), stream.Now(), stream.answers)
      ensures rc !in {OK, ERR_CUDA} ==> heap.live == old(heap.live) && stream.Now() == old(stream.Now())
      ensures Valid() && handles == old(handles)
    {
      hide OpLaunches, Enqueued, Issued, Smooth, KeyHandle.Valid, KeyHandle.Owned, Heap.Valid;
      rc := OpenAsync(h, heap, stream, src, frameLen, dst, len, flag, answerA, answerB);
      if h != null { ValidAfterGrowth(h); } else { ValidUnmoved(); }
    }

    // ---- Whole programs ----

    // One command, on any of the live handles
    method Perform(c: Command, stream: Stream) returns (rc: ReturnCode)
      requires Valid()
      modifies this, heap, handles, stream
      ensures Valid() && fresh(handles - old(handles))
      ensures |handles| == CountAfter(|old(handles)|, c, rc)
    {
      hide Engine.Valid, Answered, SealArguments, OpenArguments, Created, TablesGranted, Smooth, Sent;
      var h: KeyHandle? := null;
      if handles != {} {
        h :| h in handles;
      }
      match c
      case Create(key, out, keyLen, answers) => var g; rc, g := Create(key, out, keyLen, answers);
      case Destroy => rc := Destroy(h);
      case Reserve(len, a, b) => rc := Reserve(h, len, a, b);
      case Seal(src, len, dst, capacity, iv, a, b) => rc := Seal(h, stream, src, len, dst, capacity, iv, a, b);
      case Open(src, frameLen, dst, len, flag, a, b) => rc := Open(h, stream, src, frameLen, dst, len, flag, a, b);
    }

    // Any program of calls, with any answers from the runtime
    method Drive(script: seq<Command>, stream: Stream) returns (codes: seq<ReturnCode>)
      requires Valid()
      modifies this, heap, handles, stream
      ensures Valid() && fresh(handles - old(handles))
      ensures |codes| == |script| && |handles| == HandleCount(|old(handles)|, script, codes)
      ensures forall i, j :: 0 <= i < j < |heap.freed| ==> heap.freed[i] != heap.freed[j]
      ensures forall b :: b in heap.live <==> exists h :: h in handles && b in h.Owned()
    {
      hide Engine.Valid, CountAfter;
      codes := [];
      for i := 0 to |script|
        invariant Valid() && fresh(handles - old(handles)) && |codes| == i
        invariant |handles| == HandleCount(|old(handles)|, script[..i], codes)
      {
        var rc := Perform(script[i], stream);
        ghost var done := codes;
        codes := codes + [rc];
        assert script[..i + 1][..i] == script[..i] && codes[..i] == done;
      }
      assert script[..|script|] == script;
      Accounts();
    }

    // Each allocation is freed once, and those not freed belong to the handles
    lemma Accounts()
      requires Valid()
      ensures forall i, j :: 0 <= i < j < |heap.freed| ==> heap.freed[i] != heap.freed[j]
      ensures forall b :: b in heap.live <==> exists h :: h in handles && b in h.Owned()
    {}

    // Once every handle is destroyed no device memory is left
    method Shutdown()
      requires Valid()
      modifies this, heap
      ensures Valid() && handles == {} && heap.live == {}
    {
      hide Engine.Valid;
      while handles != {}
        invariant Valid() && handles <= old(handles)
        decreases handles
      {
        var h :| h in handles;
        var rc := Destroy(h);
      }
      NothingHeld();
    }

    lemma NothingHeld()
      requires Valid() && handles == {}
      ensures heap.live == {}
    {}

    // The same handles, none of which moved, hold the same memory
    twostate lemma SameLive()
      requires old(Valid()) && Valid() && handles == old(handles)
      requires forall g <- old(handles) :: unchanged(g)
      ensures heap.live == old(heap.live)
    {
      hide KeyHandle.Valid, KeyHandle.Owned, Heap.Valid;
      forall b ensures b in heap.live <==> b in old(heap.live) {
        if b in heap.live {
          var g :| g in handles && b in g.Owned();
          assert b in old(g.Owned());
        }
        if b in old(heap.live) {
          var g :| g in old(handles) && b in old(g.Owned());
          assert b in g.Owned();
        }
      }
    }

    // ---- Each call keeps the books ----

    // One handle may have grown its workspace; the others have not moved
    twostate lemma ValidAfterGrowth(h: KeyHandle)
      requires old(Valid()) && h in handles && handles == old(handles)
      requires h.Kept(heap) && forall g <- handles :: g != h ==> unchanged(g)
      ensures Valid()
    {
      hide KeyHandle.Valid, KeyHandle.Owned, Heap.Valid;
      forall g | g in handles && g != h
        ensures g.Valid() && g.Owned() <= heap.live && g.Owned() !! h.Owned()
      {
        assert g.Owned() == old(g.Owned());
        assert g.Owned() <= old(heap.live - h.Owned());
      }
      forall b | b in heap.live
        ensures exists g :: g in handles && b in g.Owned()
      {
        if b !in h.Owned() {
          assert b in old(heap.live - h.Owned());
          var g :| g in old(handles) && b in old(g.Owned());
          assert b in g.Owned();
        }
      }
    }

    twostate lemma ValidAfterCreate(new h: KeyHandle)
      requires old(Valid()) && handles == old(handles) + {h} && fresh(h)
      requires heap.Valid() && h.Valid() && fresh(h.Owned()) && heap.live == old(heap.live) + h.Owned()
      requires forall g <- old(handles) :: unchanged(g)
      ensures Valid()
    {
      hide KeyHandle.Valid, KeyHandle.Owned, Heap.Valid;
      forall g | g in old(handles)
        ensures g.Valid() && g.Owned() <= heap.live && g.Owned() !! h.Owned()
      {
        assert g.Owned() == old(g.Owned());
      }
      forall b | b in heap.live
        ensures exists g :: g in handles && b in g.Owned()
      {
        if b !in h.Owned() {
          var g :| g in old(handles) && b in old(g.Owned());
          assert b in g.Owned();
        }
      }
    }

    twostate lemma ValidAfterDestroy(h: KeyHandle)
      requires old(Valid()) && h in old(handles) && handles == old(handles) - {h}
      requires heap.Valid() && heap.live == old(heap.live) - h.Owned()
      requires forall g <- old(handles) :: unchanged(g)
      ensures Valid()
    {
      hide KeyHandle.Valid, KeyHandle.Owned, Heap.Valid;
      forall g | g in handles
        ensures g.Valid() && g.Owned() <= heap.live
      {
        assert g.Owned() == old(g.Owned()) && old(g.Owned()) !! old(h.Owned());
      }
      forall b | b in heap.live
        ensures exists g :: g in handles && b in g.Owned()
      {
        var g :| g in old(handles) && b in old(g.Owned());
        assert b in g.Owned();
      }
    }

    twostate lemma ValidUnmoved()
      requires old(Valid()) && handles == old(handles) && heap.Valid() && heap.live == old(heap.live)
      requires forall g <- old(handles) :: unchanged(g)
      ensures Valid()
    {
      hide KeyHandle.Valid, KeyHandle.Owned, Heap.Valid;
      forall g | g in handles ensures g.Valid() && g.Owned() == old(g.Owned()) {}
      forall b | b in heap.live
        ensures exists g :: g in handles && b in g.Owned()
      {
        var g :| g in old(handles) && b in old(g.Owned());
        assert b in g.Owned();
      }
    }
  }

  // What a Python call did: returned, or raised GpuAesGcmError or ValueError
  datatype Outcome = Returned | Raised

  // Calls a Python program may make on a key object
  datatype KeyCall =
    | PyReserve(len: nat, answerA: Option<nat>, answerB: Option<nat>)
    | PySeal(src: Option<nat>, len: nat, dst: Option<nat>, capacity: nat, iv: seq<byte>,
           answerA: Option<nat>, answerB: Option<nat>)
    | PyOpen(src: Option<nat>, frameLen: nat, dst: Option<nat>, len: nat, flag: Option<nat>,
           answerA: Option<nat>, answerB: Option<nat>)
    | PyClose
    | PyExit

  // GpuAes128GcmKey
  class PyKey {
    const engine: Engine
    var handle: KeyHandle?

    ghost predicate Valid()
      reads this, engine, engine.heap, engine.handles
    {
      engine.Valid() && (handle != null ==> handle in engine.handles)
    }

    // __init__; when it raises, the object holds no handle
    constructor (engine: Engine, keyLen: nat, answers: CreateAnswers)
      requires engine.Valid()
      modifies engine, engine.heap
      ensures Valid() && this.engine == engine
      ensures handle != null ==> keyLen == 16 && fresh(handle) && engine.handles == old(engine.handles) + {handle}
      ensures handle == null ==> engine.handles == old(engine.handles)
      ensures handle != null <==> keyLen == 16 && Created(old(engine.heap.live), answers)
    {
      hide Engine.Valid;
      this.engine := engine;
      var h: KeyHandle? := null;
      if keyLen == 16 {
        var rc;
        rc, h := engine.Create(true, true, keyLen, answers);
      }
      handle := h;
    }

    // close, __exit__ and __del__
    method Close() returns (o: Outcome)
      requires Valid()
      modifies this, engine, engine.heap
      ensures Valid() && handle == null && o == Returned
      ensures engine.handles == old(engine.handles) - {old(handle)}
      ensures old(handle) == null ==> unchanged(engine) && unchanged(engine.heap)
    {
      hide Engine.Valid;
      o := Returned;
      if handle == null {
        return;
      }
      var rc := engine.Destroy(handle);
      handle := null;
      o := if rc == OK then Returned else Raised;
    }

    // One call; after close everything but close raises
    method Invoke(c: KeyCall, stream: Stream) returns (o: Outcome)
      requires Valid()
      modifies this, engine, engine.heap, handle, stream
      ensures handle == if c.PyClose? || c.PyExit? then null else old(handle)
      ensures engine.handles == old(engine.handles) - (if handle == null then {old(handle)} else {})
      ensures old(handle) == null && c !in {PyClose, PyExit} ==> o == Raised
      ensures c.PyClose? || c.PyExit? ==> o == Returned && stream.Now() == old(stream.Now())
      ensures c.PyReserve? ==>
        && stream.Now() == old(stream.Now())
        && (o == Returned <==> handle != null && handle.Granted(engine.heap, c.len, c.answerA, c.answerB))
        && (o == Returned ==> Segs(c.len) <= handle.nodeCapacity)
      ensures c.PySeal? ==> (o == Returned <==>
        && handle != null && |c.iv| == 12 && SealArguments(true, c.src, c.len, c.dst, c.capacity, Some(c.iv))
        && handle.Granted(engine.heap, c.len, c.answerA, c.answerB)
        && Smooth(old(stream.Now()), SealTotal(c.len), stream.answers))
      ensures c.PySeal? && o == Returned ==>
        && handle.Valid() && Segs(c.len) <= handle.nodeCapacity
        && stream.log == old(stream.log) + OpLaunches(SealOp(c.src.value, c.len, c.dst.value, c.iv), handle.Ws())
      ensures c.PySeal? && |c.iv| != 12 ==> stream.Now() == old(stream.Now()) && unchanged(engine.heap)
      ensures c.PyOpen? ==> (o == Returned <==>
        && handle != null && OpenArguments(true, c.src, c.frameLen, c.dst, c.len, c.flag)
        && handle.Granted(engine.heap, c.len, c.answerA, c.answerB)
        && Smooth(old(stream.Now()), OpenTotal(c.len), stream.answers))
      ensures c.PyOpen? && o == Returned ==>
        && handle.Valid() && Segs(c.len) <= handle.nodeCapacity
        && stream.log
          == old(stream.log) + OpLaunches(OpenOp(c.src.value, c.len, c.dst.value, c.flag.value), handle.Ws())
      ensures Valid()
    {
      hide Engine.Valid, OpLaunches, Issued, Smooth, Segs, TwoGranted, SealTotal, OpenTotal, KeyHandle.Valid;
      var rc := OK;
      match c
      case PyClose => o := Close();
      case PyExit => o := Close();
      case PyReserve(len, a, b) =>
        rc := engine.Reserve(handle, len, a, b);
        o := if rc == OK then Returned else Raised;
      case PySeal(src, len, dst, capacity, iv, a, b) =>
        if |iv| != 12 {
          return Raised;
        }
        rc := engine.Seal(handle, stream, src, len, dst, capacity, Some(iv), a, b);
        o := if rc == OK then Returned else Raised;
      case PyOpen(src, frameLen, dst, len, flag, a, b) =>
        rc := engine.Open(handle, stream, src, frameLen, dst, len, flag, a, b);
        o := if rc == OK then Returned else Raised;
    }
  }

  predicate Closing(c: KeyCall) { c.PyClose? || c.PyExit? }

  // Whatever is done with a key object, once it has been collected the library is back where it was. Behind the first
  // close, or on a key that could not be created, every call but close raises.
  method KeyLifetime(engine: Engine, stream: Stream, keyLen: nat, answers: CreateAnswers, calls: seq<KeyCall>)
      returns (outcomes: seq<Outcome>)
    requires engine.Valid()
    modifies engine, engine.heap, stream
    ensures engine.Valid() && engine.handles == old(engine.handles) && engine.heap.live == old(engine.heap.live)
    ensures |outcomes| == |calls|
    ensures forall j :: 0 <= j < |calls| && Closing(calls[j]) ==> outcomes[j] == Returned
    ensures forall j :: 0 <= j < |calls| && !Closing(calls[j]) ==>
      (keyLen != 16 || !Created(old(engine.heap.live), answers) || exists i :: 0 <= i < j && Closing(calls[i])) ==>
        outcomes[j] == Raised
  {
    hide Engine.Valid, TablesGranted, Smooth, OpLaunches;
    ghost var before := engine.handles;
    var key := new PyKey(engine, keyLen, answers);
    ghost var created := key.handle != null;
    outcomes := [];
    for i := 0 to |calls|
      invariant key.Valid() && key.engine == engine && (key.handle != null ==> fresh(key.handle))
      invariant engine.handles == before + (if key.handle == null then {} else {key.handle})
      invariant |outcomes| == i
      invariant key.handle == null <==> !created || exists k :: 0 <= k < i && Closing(calls[k])
      invariant forall j :: 0 <= j < i && Closing(calls[j]) ==> outcomes[j] == Returned
      invariant forall j :: 0 <= j < i && !Closing(calls[j]) ==>
        (!created || exists k :: 0 <= k < j && Closing(calls[k])) ==> outcomes[j] == Raised
    {
      var o := key.Invoke(calls[i], stream);
      outcomes := outcomes + [o];
    }
    var o := key.Close();
    engine.SameLive();
  }
}
