/** The host side: key handles, their device allocations, and the calls that fill a stream. */
module Host {
  import Aes
  import opened CudaStream
  import opened Faults
  import opened Gcm
  import opened Kernels
  import opened Operations

  datatype ReturnCode = OK | ERR_ARGUMENT | ERR_ALLOC | ERR_CUDA

  // One device allocation of size cells from address at on
  class Buffer {
    const at: nat
    const size: nat

    constructor (at: nat, size: nat)
      ensures this.at == at && this.size == size
    {
      this.at, this.size := at, size;
    }
  }

  predicate Room(live: set<Buffer>, at: nat, size: nat) { forall c <- live :: Apart(at, size, c.at, c.size) }

  function Held(b: Buffer?): set<Buffer> { if b == null then {} else {b} }

  // cudaMalloc and cudaFree
  class Heap {
    var live: set<Buffer>
    var freed: seq<Buffer>

    ghost predicate Valid()
      reads this
    {
      && (forall b <- freed :: b !in live)
      && (forall i, j :: 0 <= i < j < |freed| ==> freed[i] != freed[j])
      && (forall b, c :: b in live && c in live && b != c ==> Apart(b.at, b.size, c.at, c.size))
    }

    constructor ()
      ensures Valid() && live == {} && freed == []
    {
      live, freed := {}, [];
    }

    // The runtime answers with an address, which never meets a live allocation, or with failure
    method Malloc(size: nat, answer: Option<nat>) returns (b: Buffer?)
      requires Valid()
      modifies this
      ensures Valid() && freed == old(freed)
      ensures b != null <==> answer.Some? && Room(old(live), answer.value, size)
      ensures b == null ==> live == old(live)
      ensures b != null ==> fresh(b) && live == old(live) + {b} && b.at == answer.value && b.size == size && b !in freed
    {
      b := null;
      if answer.Some? && Room(live, answer.value, size) {
        b := new Buffer(answer.value, size);
        live := live + {b};
      }
    }

    method Free(b: Buffer)
      requires Valid() && b in live
      modifies this
      ensures Valid() && live == old(live) - {b} && freed == old(freed) + [b]
    {
      live, freed := live - {b}, freed + [b];
    }
  }

  // Both of two allocations of one size are granted
  predicate TwoGranted(live: set<Buffer>, size: nat, a: Option<nat>, b: Option<nat>) {
    && a.Some? && Room(live, a.value, size)
    && b.Some? && Room(live, b.value, size) && Apart(b.value, size, a.value, size)
  }

  lemma RoomWith(live: set<Buffer>, a: Buffer, answer: Option<nat>, size: nat)
    ensures answer.Some? ==> (
      Room(live + {a}, answer.value, size) <==>
        Room(live, answer.value, size) && Apart(answer.value, size, a.at, a.size))
  {}

  // The answer of seal_async and open_async: bad arguments come first, then a refused workspace, then a launch error
  function Answered(valid: bool, grown: bool, smooth: bool): ReturnCode {
    if !valid then ERR_ARGUMENT else if !grown then ERR_ALLOC else if smooth then OK else ERR_CUDA
  }

  predicate SealArguments(key: bool, src: Option<nat>, len: nat, dst: Option<nat>, dstCapacity: nat, iv: Option<Iv>) {
    && key && src.Some? && dst.Some? && iv.Some?
    && len + 29 <= dstCapacity && CipherBlocks(len) <= 0xffff_fffe
  }

  predicate OpenArguments(key: bool, src: Option<nat>, frameLen: nat, dst: Option<nat>, len: nat, flag: Option<nat>) {
    key && src.Some? && dst.Some? && flag.Some? && len + 29 <= frameLen
  }

  class KeyHandle {
    var roundKeys: Buffer?
    var hPow2: Buffer?
    var nodesA: Buffer?
    var nodesB: Buffer?
    var nodeCapacity: nat

    constructor ()
      ensures roundKeys == null && hPow2 == null && nodesA == null && nodesB == null && nodeCapacity == 0
    {
      roundKeys, hPow2, nodesA, nodesB, nodeCapacity := null, null, null, null, 0;
    }

    // The allocations the handle is responsible for
    ghost function Owned(): set<Buffer>
      reads this
    {
      Held(roundKeys) + Held(hPow2) + Held(nodesA) + Held(nodesB)
    }

    ghost predicate Valid()
      reads this
    {
      && roundKeys != null && hPow2 != null && roundKeys != hPow2
      && (nodeCapacity == 0 <==> nodesA == null) && (nodeCapacity == 0 <==> nodesB == null)
      && (nodeCapacity > 0 ==>
            && nodesA != nodesB && nodesA !in {roundKeys, hPow2} && nodesB !in {roundKeys, hPow2}
            && nodesA.size == nodesB.size == nodeCapacity)
    }

    ghost function Ws(): Workspace
      requires Valid()
      reads this
    {
      if nodeCapacity == 0 then Workspace(0, 0, 0) else Workspace(nodesA.at, nodesB.at, nodeCapacity)
    }

    ghost predicate Owns(heap: Heap)
      reads this, heap
    {
      Valid() && heap.Valid() && Owned() <= heap.live
    }

    // Both buffers lie in the nodes of m
    predicate InNodes(m: Memory)
      reads this
    {
      && (nodesA != null ==> nodesA.at + nodesA.size <= |m.nodes|)
      && (nodesB != null ==> nodesB.at + nodesB.size <= |m.nodes|)
    }

    // Owned buffers do not overlap, so the kernels get what they need
    lemma WsFits(heap: Heap, m: Memory)
      requires Owns(heap) && InNodes(m)
      ensures nodeCapacity > 0 ==> WorkspaceFits(Ws(), m)
    {}

    lemma HasNodes(heap: Heap, len: nat)
      requires Owns(heap) && Segs(len) <= nodeCapacity
      ensures nodesA != null && nodesB != null && Segs(len) >= 1
      ensures Ws() == Workspace(nodesA.at, nodesB.at, nodeCapacity)
    {}

    // The handle may have traded its workspace for a larger one, and nobody else's memory has changed hands
    twostate predicate Kept(heap: Heap)
      reads this, heap
    {
      && Owns(heap)
      && heap.live - Owned() == old(heap.live - Owned())
      && fresh(Owned() - old(Owned()))
      && nodeCapacity >= old(nodeCapacity)
    }

    // There was room for len already, or the runtime grants it
    twostate predicate Granted(heap: Heap, len: nat, answerA: Option<nat>, answerB: Option<nat>)
      reads this, heap
    {
      old(nodeCapacity) >= Segs(len) || TwoGranted(old(heap.live), Segs(len), answerA, answerB)
    }

    // ensure_workspace
    method EnsureWorkspace(heap: Heap, len: nat, answerA: Option<nat>, answerB: Option<nat>) returns (rc: ReturnCode)
      requires Owns(heap)
      modifies this, heap
      ensures Kept(heap)
      ensures roundKeys == old(roundKeys) && hPow2 == old(hPow2)
      ensures rc == if Segs(len) <= nodeCapacity then OK else ERR_ALLOC
      ensures rc == OK <==> Granted(heap, len, answerA, answerB)
      ensures rc == ERR_ALLOC || old(nodeCapacity) >= Segs(len) ==>
        && nodesA == old(nodesA) && nodesB == old(nodesB)
        && nodeCapacity == old(nodeCapacity) && heap.live == old(heap.live)
      ensures rc == OK && old(nodeCapacity) < Segs(len) ==> Ws() == Workspace(answerA.value, answerB.value, Segs(len))
    {
      hide Room, Segs, Heap.Valid;
      var required := Segs(len);
      if required <= nodeCapacity {
        return OK;
      }
      var a := heap.Malloc(required, answerA);
      if a == null {
        return ERR_ALLOC;
      }
      RoomWith(old(heap.live), a, answerB, required);
      var b := heap.Malloc(required, answerB);
      if b == null {
        heap.Free(a);
        return ERR_ALLOC;
      }
      TradeNodes(heap, a, b, required);
      return OK;
    }

    // The second half of ensure_workspace: free the old buffers, keep the new ones
    method TradeNodes(heap: Heap, a: Buffer, b: Buffer, size: nat)
      requires Owns(heap) && a != b && a in heap.live - Owned() && b in heap.live - Owned()
      requires a.size == b.size == size > 0
      modifies this, heap
      ensures roundKeys == old(roundKeys) && hPow2 == old(hPow2) && nodesA == a && nodesB == b && nodeCapacity == size
      ensures Owns(heap) && heap.live == old(heap.live - Held(nodesA) - Held(nodesB))
    {
      if nodesA != null {
        heap.Free(nodesA);
      }
      if nodesB != null {
        heap.Free(nodesB);
      }
      nodesA, nodesB, nodeCapacity := a, b, size;
    }
  }

  // enqueue_ghash: root is the pointer the host-side swaps end on
  method EnqueueGhash(h: KeyHandle, heap: Heap, stream: Stream, text: nat, len: nat,
                      answerA: Option<nat>, answerB: Option<nat>)
    returns (rc: ReturnCode, root: nat)
    requires h.Owns(heap)
    modifies h, heap, stream
    ensures h.Kept(heap)
    ensures old(h.nodeCapacity) >= Segs(len) ==> h.Ws() == old(h.Ws()) && heap.live == old(heap.live)
    ensures rc == ERR_ALLOC <==> !h.Granted(heap, len, answerA, answerB)
    ensures rc == ERR_ALLOC ==> stream.Now() == old(stream.Now()) && heap.live == old(heap.live)
    ensures rc != ERR_ALLOC ==>
      && Segs(len) <= h.nodeCapacity
      && stream.Now() == Checked(old(stream.Now()), GhashLaunches(text, len, h.Ws()), stream.answers)
    ensures rc != ERR_ALLOC ==> rc == if stream.error then ERR_CUDA else OK
    ensures rc == OK ==> root == GhashRoot(len, h.Ws())
  {
    hide KeyHandle.Valid, KeyHandle.Owned, Heap.Valid, TwoGranted, Segs, Tried;
    root := 0;
    rc := h.EnsureWorkspace(heap, len, answerA, answerB);
    if rc != OK {
      return;
    }
    var count := Segs(len);
    h.HasNodes(heap, len);
    ghost var ws, p := h.Ws(), stream.Now();
    assert GhashLaunches(text, len, ws)[1..] == CombineLaunches(ws.a, ws.b, count);
    stream.Enqueue(Segment(text, len, h.nodesA.at));
    if !stream.Peek() {
      return ERR_CUDA, 0;
    }
    rc, root := EnqueueCombines(stream, h.nodesA.at, h.nodesB.at, count);
  }

  // The reduction loop of enqueue_ghash
  method EnqueueCombines(stream: Stream, nodesA: nat, nodesB: nat, nodes: nat) returns (rc: ReturnCode, root: nat)
    requires nodes >= 1 && !stream.error
    modifies stream
    ensures rc == if stream.error then ERR_CUDA else OK
    ensures stream.Now() == Checked(old(stream.Now()), CombineLaunches(nodesA, nodesB, nodes), stream.answers)
    ensures rc == OK ==> root == RootAt(nodesA, nodesB, nodes)
  {
    hide Tried;
    ghost var end := Checked(stream.Now(), CombineLaunches(nodesA, nodesB, nodes), stream.answers);
    var input, output, count := nodesA, nodesB, nodes;
    while count > 1
      invariant count >= 1 && !stream.error
      invariant Checked(stream.Now(), CombineLaunches(input, output, count), stream.answers) == end
      invariant RootAt(input, output, count) == RootAt(nodesA, nodesB, nodes)
    {
      var next := (count + 1) / 2;
      assert CombineLaunches(input, output, count)[1..] == CombineLaunches(output, input, next);
      stream.Enqueue(Combine(input, output, count));
      if !stream.Peek() {
        return ERR_CUDA, 0;
      }
      input, output := output, input;
      count := next;
    }
    rc, root := OK, input;
  }

  // The launches of seal_async, once its arguments and workspace are settled
  method SealLaunches(h: KeyHandle, heap: Heap, stream: Stream, src: nat, len: nat, dst: nat, iv: Iv)
    returns (rc: ReturnCode)
    requires h.Owns(heap) && Segs(len) <= h.nodeCapacity
    modifies h, heap, stream
    ensures h.Kept(heap) && h.Ws() == old(h.Ws()) && heap.live == old(heap.live)
    ensures stream.Now() == Issued(old(stream.Now()), SealOp(src, len, dst, iv), h.Ws(), stream.answers)
    ensures rc == if stream.error then ERR_CUDA else OK
  {
    hide GhashLaunches, GhashRoot, Segs, Tried, KeyHandle.Valid, KeyHandle.Owned, KeyHandle.Ws, Heap.Valid;
    ghost var op, ws := SealOp(src, len, dst, iv), h.Ws();
    EnqueueHead(stream, src, len, dst, iv);
    ghost var p, ghash := stream.Now(), GhashLaunches(dst + HEADER_LEN, len, ws);
    var root;
    rc, root := EnqueueGhash(h, heap, stream, dst + HEADER_LEN, len, None, None);
    GhashNotEmpty(dst + HEADER_LEN, len, ws);
    CheckedAppend(p, ghash, [Finalize(dst, len, GhashRoot(len, ws))], stream.answers);
    if rc != OK {
      return;
    }
    stream.Enqueue(Finalize(dst, len, root));
    CheckedOne(Checked(p, ghash, stream.answers), Finalize(dst, len, root), stream.answers);
    rc := if stream.Peek() then OK else ERR_CUDA;
  }

  // Header and CTR, without a check between or behind them
  method EnqueueHead(stream: Stream, src: nat, len: nat, dst: nat, iv: Iv)
    modifies stream
    ensures stream.Now() == Unchecked(old(stream.Now()), SealHead(SealOp(src, len, dst, iv)), stream.answers)
  {
    hide Tried;
    ghost var p, header := stream.Now(), Header(dst, iv);
    stream.Enqueue(Header(dst, iv));
    UncheckedOne(p, header, stream.answers);
    if CipherBlocks(len) > 0 {
      stream.Enqueue(Ctr(src, dst + HEADER_LEN, len, dst + 1, None));
      UncheckedTwo(p, header, Ctr(src, dst + HEADER_LEN, len, dst + 1, None), stream.answers);
    } else {
      assert SealHead(SealOp(src, len, dst, iv)) == [header];
    }
  }

  // lmcache_gpu_aes128gcm_seal_async
  method SealAsync(key: KeyHandle?, heap: Heap, stream: Stream, src: Option<nat>, len: nat, dst: Option<nat>,
                   dstCapacity: nat, iv: Option<Iv>, answerA: Option<nat>, answerB: Option<nat>)
    returns (rc: ReturnCode)
    requires key != null ==> key.Owns(heap)
    modifies key, heap, stream
    ensures key != null ==> key.Kept(heap)
    ensures rc == Answered(
      SealArguments(key != null, src, len, dst, dstCapacity, iv),
      key != null && key.Granted(heap, len, answerA, answerB),
      Smooth(old(stream.Now()), SealTotal(len), stream.answers))
    ensures rc in {ERR_ARGUMENT, ERR_ALLOC} ==> stream.Now() == old(stream.Now()) && heap.live == old(heap.live)
    ensures rc == ERR_ARGUMENT ==> unchanged(heap) && (key != null ==> unchanged(key))
    ensures rc in {OK, ERR_CUDA} ==> Segs(len) <= key.nodeCapacity
    ensures rc in {OK, ERR_CUDA} && old(key.nodeCapacity) >= Segs(len) ==> key.Ws() == old(key.Ws())
    ensures rc in {OK, ERR_CUDA} && old(key.nodeCapacity) < Segs(len) ==>
      answerA.Some? && answerB.Some? && key.Ws() == Workspace(answerA.value, answerB.value, Segs(len))
    ensures rc in {OK, ERR_CUDA} ==>
      && stream.Now()
        == Issued(old(stream.Now()), SealOp(src.value, len, dst.value, iv.value), key.Ws(), stream.answers)
      && (rc == OK <==> !stream.error)
    ensures rc == OK ==>
      stream.log == old(stream.log) + OpLaunches(SealOp(src.value, len, dst.value, iv.value), key.Ws())
    ensures rc == ERR_CUDA ==>
      Enqueued(SealOp(src.value, len, dst.value, iv.value), key.Ws(), old(stream.log), stream.log)
  {
    hide OpLaunches, Enqueued, Issued, Smooth, Room, Segs, SealTotal, OpenTotal, KeyHandle.Owned, Heap.Valid;
    if key == null || src.None? || dst.None? || iv.None? {
      return ERR_ARGUMENT;
    }
    if dstCapacity < len + OVERHEAD {
      return ERR_ARGUMENT;
    }
    var blocks := CipherBlocks(len);
    if blocks > MAX_BLOCKS {
      return ERR_ARGUMENT;
    }
    rc := key.EnsureWorkspace(heap, len, answerA, answerB);
    if rc == OK {
      ghost var op, p := SealOp(src.value, len, dst.value, iv.value), stream.Now();
      rc := SealLaunches(key, heap, stream, src.value, len, dst.value, iv.value);
      IssuedFacts(p, op, key.Ws(), stream.answers);
    }
  }

  // The launches of open_async, once its arguments and workspace are settled
  method OpenLaunches(h: KeyHandle, heap: Heap, stream: Stream, src: nat, len: nat, dst: nat, flag: nat)
    returns (rc: ReturnCode)
    requires h.Owns(heap) && Segs(len) <= h.nodeCapacity
    modifies h, heap, stream
    ensures h.Kept(heap) && h.Ws() == old(h.Ws()) && heap.live == old(heap.live)
    ensures stream.Now() == Issued(old(stream.Now()), OpenOp(src, len, dst, flag), h.Ws(), stream.answers)
    ensures rc == if stream.error then ERR_CUDA else OK
  {
    hide GhashLaunches, GhashRoot, Segs, Tried, Checked, KeyHandle.Valid, KeyHandle.Owned, KeyHandle.Ws, Heap.Valid;
    var root;
    rc, root := EnqueueGhash(h, heap, stream, src + HEADER_LEN, len, None, None);
    if rc != OK {
      return;
    }
    EnqueueTail(stream, OpenOp(src, len, dst, flag), h.Ws(), root);
    rc := if stream.Peek() then OK else ERR_CUDA;
  }

  // Verify and CTR, without a check between them
  method EnqueueTail(stream: Stream, op: Op, ghost ws: Workspace, root: nat)
    requires op.OpenOp? && root == GhashRoot(op.len, ws)
    modifies stream
    ensures stream.Now() == Unchecked(old(stream.Now()), OpenTail(op, ws), stream.answers)
  {
    hide Tried;
    ghost var p, v := stream.Now(), Verify(op.src, op.len, root, op.flag);
    stream.Enqueue(Verify(op.src, op.len, root, op.flag));
    UncheckedOne(p, v, stream.answers);
    if CipherBlocks(op.len) > 0 {
      stream.Enqueue(Ctr(op.src + HEADER_LEN, op.dst, op.len, op.src + 1, Some(op.flag)));
      UncheckedTwo(p, v, Ctr(op.src + HEADER_LEN, op.dst, op.len, op.src + 1, Some(op.flag)), stream.answers);
    } else {
      assert OpenTail(op, ws) == [v];
    }
  }

  // lmcache_gpu_aes128gcm_open_async
  method OpenAsync(key: KeyHandle?, heap: Heap, stream: Stream, src: Option<nat>, frameLen: nat, dst: Option<nat>,
                   len: nat, flag: Option<nat>, answerA: Option<nat>, answerB: Option<nat>)
    returns (rc: ReturnCode)
    requires key != null ==> key.Owns(heap)
    modifies key, heap, stream
    ensures key != null ==> key.Kept(heap)
    ensures rc == Answered(
      OpenArguments(key != null, src, frameLen, dst, len, flag),
      key != null && key.Granted(heap, len, answerA, answerB),
      Smooth(old(stream.Now()), OpenTotal(len), stream.answers))
    ensures rc in {ERR_ARGUMENT, ERR_ALLOC} ==> stream.Now() == old(stream.Now()) && heap.live == old(heap.live)
    ensures rc == ERR_ARGUMENT ==> unchanged(heap) && (key != null ==> unchanged(key))
    ensures rc in {OK, ERR_CUDA} ==> Segs(len) <= key.nodeCapacity
    ensures rc in {OK, ERR_CUDA} && old(key.nodeCapacity) >= Segs(len) ==> key.Ws() == old(key.Ws())
    ensures rc in {OK, ERR_CUDA} && old(key.nodeCapacity) < Segs(len) ==>
      answerA.Some? && answerB.Some? && key.Ws() == Workspace(answerA.value, answerB.value, Segs(len))
    ensures rc in {OK, ERR_CUDA} ==>
      && stream.Now()
        == Issued(old(stream.Now()), OpenOp(src.value, len, dst.value, flag.value), key.Ws(), stream.answers)
      && (rc == OK <==> !stream.error)
    ensures rc == OK ==>
      stream.log == old(stream.log) + OpLaunches(OpenOp(src.value, len, dst.value, flag.value), key.Ws())
    ensures rc == ERR_CUDA ==>
      Enqueued(OpenOp(src.value, len, dst.value, flag.value), key.Ws(), old(stream.log), stream.log)
  {
    hide OpLaunches, Enqueued, Issued, Smooth, Room, Segs, SealTotal, OpenTotal, KeyHandle.Owned, Heap.Valid;
    if key == null || src.None? || dst.None? || flag.None? {
      return ERR_ARGUMENT;
    }
    if frameLen < len + OVERHEAD {
      return ERR_ARGUMENT;
    }
    rc := key.EnsureWorkspace(heap, len, answerA, answerB);
    if rc == OK {
      ghost var op, p := OpenOp(src.value, len, dst.value, flag.value), stream.Now();
      rc := OpenLaunches(key, heap, stream, src.value, len, dst.value, flag.value);
      IssuedFacts(p, op, key.Ws(), stream.answers);
    }
  }

  // What the runtime answers while a key is being created
  datatype CreateAnswers = CreateAnswers(
    newOk: bool, symbolOk: bool, roundKeys: Option<nat>, hPow2: Option<nat>, copyOk: bool, syncOk: bool)

  const TABLE_BYTES := 1024

  // The allocations for round keys and table are granted
  predicate TablesGranted(live: set<Buffer>, a: CreateAnswers) {
    && a.roundKeys.Some? && Room(live, a.roundKeys.value, 176)
    && a.hPow2.Some? && Room(live, a.hPow2.value, 1024) && Apart(a.hPow2.value, 1024, a.roundKeys.value, 176)
  }

  // Every step of key_create succeeds
  predicate Created(live: set<Buffer>, a: CreateAnswers) {
    a.newOk && a.symbolOk && TablesGranted(live, a) && a.copyOk && a.syncOk
  }

  // lmcache_gpu_aes128gcm_key_create; key and out are the pointers that may be null. h is what it stores through out:
  // null unless rc is OK, and then nothing is left allocated
  method KeyCreate(heap: Heap, key: bool, out: bool, keyLen: nat, a: CreateAnswers)
    returns (rc: ReturnCode, h: KeyHandle?)
    requires heap.Valid()
    modifies heap
    ensures heap.Valid() && (rc == OK <==> h != null) && (rc == ERR_ARGUMENT <==> !key || !out || keyLen != 16)
    ensures rc == OK <==> key && out && keyLen == 16 && Created(old(heap.live), a)
    ensures rc == ERR_CUDA <==> (
      && key && out && keyLen == 16 && a.newOk
      && (!a.symbolOk || (TablesGranted(old(heap.live), a) && !(a.copyOk && a.syncOk))))
    ensures h != null ==> fresh(h) && h.Valid() && h.nodeCapacity == 0 && fresh(h.Owned())
    ensures heap.live == if h != null then old(heap.live) + h.Owned() else old(heap.live)
  {
    if !key || !out || keyLen != 16 {
      return ERR_ARGUMENT, null;
    }
    if !a.newOk {
      return ERR_ALLOC, null;
    }
    if !a.symbolOk {
      return ERR_CUDA, null;
    }
    var roundKeys := heap.Malloc(Aes.ROUND_KEY_BYTES, a.roundKeys);
    if roundKeys == null {
      return ERR_ALLOC, null;
    }
    var hPow2 := heap.Malloc(TABLE_BYTES, a.hPow2);
    if hPow2 == null {
      heap.Free(roundKeys);
      return ERR_ALLOC, null;
    }
    if !a.copyOk || !a.syncOk {
      heap.Free(hPow2);
      heap.Free(roundKeys);
      return ERR_CUDA, null;
    }
    h := new KeyHandle();
    h.roundKeys, h.hPow2 := roundKeys, hPow2;
    rc := OK;
  }

  // lmcache_gpu_aes128gcm_key_destroy
  method KeyDestroy(heap: Heap, h: KeyHandle?) returns (rc: ReturnCode)
    requires heap.Valid() && (h != null ==> h.Owns(heap))
    modifies heap
    ensures heap.Valid() && rc == OK
    ensures heap.live == old(heap.live) - if h == null then {} else h.Owned()
    ensures old(heap.freed) <= heap.freed
  {
    rc := OK;
    if h == null {
      return;
    }
    if h.nodesA != null {
      heap.Free(h.nodesA);
    }
    if h.nodesB != null {
      heap.Free(h.nodesB);
    }
    heap.Free(h.hPow2);
    heap.Free(h.roundKeys);
  }
}
