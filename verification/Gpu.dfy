/** The kernels as the threads of each launch execute them on device memory, in any order. */
module Gpu {
  import opened Words
  import opened Blocks
  import opened Bytes
  import opened Powers
  import opened Frames
  import opened GhashTree
  import opened Gcm
  import opened Kernels
  import opened Launches

  // The thread that stores a cell
  function Owner(l: Launch, c: Cell): nat {
    match l
    case Ctr(src, dst, len, ivAt, gate) => if c.at >= dst then (c.at - dst) / 16 else 0
    case Segment(text, len, output) => if c.at >= output then c.at - output else 0
    case Combine(input, output, count) => if c.at >= output then c.at - output else 0
    case _ => 0
  }

  // Threads a launch needs; grids are rounded up, so more may run
  function ThreadCount(l: Launch): nat {
    match l
    case Ctr(src, dst, len, ivAt, gate) => CipherBlocks(len)
    case Segment(text, len, output) => Segs(len)
    case Combine(input, output, count) => CeilDiv(count, 2)
    case _ => 1
  }

  ghost predicate CellsOf(l: Launch, t: nat, cells: set<Cell>) {
    forall c: Cell :: c in cells <==> Writes(l, c) && Owner(l, c) == t
  }

  lemma OwnerInGrid(l: Launch, c: Cell)
    requires Writes(l, c)
    ensures Owner(l, c) < ThreadCount(l)
  {}

  // What thread t may have loaded, at whatever moments: right in the cells the launch reads and in those the
  // thread is about to store, and anything at all elsewhere
  ghost predicate GoodLoads(l: Launch, t: nat, m0: Memory, view: Memory) {
    && SameReads(l, m0, view)
    && forall c: Cell :: InMemory(m0, c) && Writes(l, c) && Owner(l, c) == t ==> SameCell(m0, view, c)
  }

  class Device {
    var mem: Memory
    const e: Cipher
    const table: seq<Block128>

    ghost predicate Valid() { PowerTable(HashKey(e), table) }

    // init_hash_key_kernel
    constructor (e: Cipher, mem: Memory)
      ensures Valid() && this.e == e && this.mem == mem
      ensures |table| == 64 && table[0] == BlockOf(e(ZEROS16))
    {
      var h := LoadBe128(e(Zeros(16)));
      var powers := new Block128[64];
      FillTable(h, powers);
      this.e, this.mem, this.table := e, mem, powers[..];
      assert Zeros(16) == ZEROS16;
      FirstEntry(h);
    }

    // The running launch started on m0 and has stored the cells in done
    ghost predicate At(l: Launch, m0: Memory, done: set<Cell>)
      reads this`mem
    {
      Fits(l, m0) && AllWritten(l, done) && mem == Partial(e, l, m0, done)
    }

    // Each store puts the value computed from the loads
    method StoreByte(ghost l: Launch, view: Memory, ghost m0: Memory, ghost done: set<Cell>, a: nat, v: byte)
      requires At(l, m0, done) && a < |mem.bytes| && WritesByte(l, a)
      requires SameReads(l, m0, view) && view.bytes[a] == m0.bytes[a] && v == Exec(e, l, view).bytes[a]
      modifies this`mem
      ensures At(l, m0, done + {ByteCell(a)}) && mem.bytes == old(mem.bytes)[a := v]
    {
      StoreAdvances(e, l, m0, view, done, ByteCell(a));
      mem := mem.(bytes := mem.bytes[a := v]);
    }

    method StoreFlag(ghost l: Launch, view: Memory, ghost m0: Memory, ghost done: set<Cell>, p: nat, v: int)
      requires At(l, m0, done) && p < |mem.flags| && WritesFlag(l, p)
      requires SameReads(l, m0, view) && view.flags[p] == m0.flags[p] && v == Exec(e, l, view).flags[p]
      modifies this`mem
      ensures At(l, m0, done + {FlagCell(p)}) && mem.flags == old(mem.flags)[p := v]
    {
      StoreAdvances(e, l, m0, view, done, FlagCell(p));
      mem := mem.(flags := mem.flags[p := v]);
    }

    method StoreNode(ghost l: Launch, view: Memory, ghost m0: Memory, ghost done: set<Cell>, i: nat, v: GHashNode)
      requires At(l, m0, done) && i < |mem.nodes| && WritesNode(l, i)
      requires SameReads(l, m0, view) && view.nodes[i] == m0.nodes[i] && v == Exec(e, l, view).nodes[i]
      modifies this`mem
      ensures At(l, m0, done + {NodeCell(i)})
    {
      StoreAdvances(e, l, m0, view, done, NodeCell(i));
      mem := mem.(nodes := mem.nodes[i := v]);
    }

    lemma OwnByte(l: Launch, t: nat, m0: Memory, view: Memory, a: nat)
      requires GoodLoads(l, t, m0, view) && a < |m0.bytes| && WritesByte(l, a) && Owner(l, ByteCell(a)) == t
      ensures view.bytes[a] == m0.bytes[a]
    {
      assert Writes(l, ByteCell(a));
    }

    lemma OwnFlag(l: Launch, t: nat, m0: Memory, view: Memory, p: nat)
      requires GoodLoads(l, t, m0, view) && p < |m0.flags| && WritesFlag(l, p) && Owner(l, FlagCell(p)) == t
      ensures view.flags[p] == m0.flags[p]
    {
      assert Writes(l, FlagCell(p));
    }

    lemma OwnNode(l: Launch, t: nat, m0: Memory, view: Memory, i: nat)
      requires GoodLoads(l, t, m0, view) && i < |m0.nodes| && WritesNode(l, i) && Owner(l, NodeCell(i)) == t
      ensures view.nodes[i] == m0.nodes[i]
    {
      assert Writes(l, NodeCell(i));
    }

    // ghash_segment_kernel
    method SegmentThread(text: nat, len: nat, output: nat, t: nat, view: Memory,
                         ghost m0: Memory, ghost done: set<Cell>)
      returns (ghost cells: set<Cell>)
      requires Valid() && At(Segment(text, len, output), m0, done) && GoodLoads(Segment(text, len, output), t, m0, view)
      modifies this`mem
      ensures CellsOf(Segment(text, len, output), t, cells) && At(Segment(text, len, output), m0, done + cells)
    {
      hide Segments, Terms, Partial, Ghash, HashKey, Exec, Level;
      ghost var l := Segment(text, len, output);
      cells := {};
      if t * SEGMENT_BLOCKS < CipherBlocks(len) + 1 {
        TableHead();
        var node := HashSegment(view.bytes[text..text + len], table[0], t);
        cells := {NodeCell(output + t)};
        SegmentValue(e, l, view, t);
        OwnNode(l, t, m0, view, output + t);
        StoreNode(l, view, m0, done, output + t, node);
      } else {
        assert done + cells == done;
      }
    }

    // ghash_combine_kernel
    method CombineThread(input: nat, output: nat, count: nat, t: nat, view: Memory,
                         ghost m0: Memory, ghost done: set<Cell>)
      returns (ghost cells: set<Cell>)
      requires Valid() && At(Combine(input, output, count), m0, done)
      requires GoodLoads(Combine(input, output, count), t, m0, view)
      modifies this`mem
      ensures CellsOf(Combine(input, output, count), t, cells) && At(Combine(input, output, count), m0, done + cells)
    {
      hide Level, Partial, Join, HashKey, Exec;
      ghost var l := Combine(input, output, count);
      cells := {};
      var left := t * 2;
      if left >= count {
        assert done + cells == done;
        return;
      }
      var a := view.nodes[input + left];
      var node := a;
      if left + 1 < count {
        node := JoinPair(a, view.nodes[input + left + 1]);
      }
      CombineValue(e, l, view, t);
      cells := {NodeCell(output + t)};
      OwnNode(l, t, m0, view, output + t);
      StoreNode(l, view, m0, done, output + t, node);
    }

    method JoinPair(a: GHashNode, b: GHashNode) returns (node: GHashNode)
      requires Valid()
      ensures node == Join(HashKey(e), a, b)
    {
      var hToLb, muls := GfPowFromTable(HashKey(e), table, b.lenBlocks);
      var shifted := GfMul(a.y, hToLb);
      node := GHashNode(Blocks.Add(shifted, b.y), (a.lenBlocks + b.lenBlocks) % TWO64);
    }

    // write_frame_header_kernel
    method HeaderThread(frame: nat, iv: Iv, t: nat, view: Memory, ghost m0: Memory, ghost done: set<Cell>)
      returns (ghost cells: set<Cell>)
      requires At(Header(frame, iv), m0, done) && GoodLoads(Header(frame, iv), t, m0, view)
      modifies this`mem
      ensures CellsOf(Header(frame, iv), t, cells) && At(Header(frame, iv), m0, done + cells)
      ensures |mem.bytes| == old(|mem.bytes|) >= frame + 13 && (t == 0 ==> mem.bytes[frame] == 1)
    {
      hide Partial, Exec, GoodLoads;
      ghost var l := Header(frame, iv);
      cells := {};
      assert done + cells == done;
      if t == 0 {
        LoadsFit(l, t, m0, view);
        HeaderValue(e, l, view);
        OwnByte(l, t, m0, view, frame);
        StoreByte(l, view, m0, done, frame, VERSION);
        cells := {ByteCell(frame)};
        for i := 0 to 12
          invariant cells == (set a | frame <= a <= frame + i :: ByteCell(a))
          invariant |mem.bytes| == old(|mem.bytes|) && mem.bytes[frame] == 1
          invariant At(l, m0, done + cells)
        {
          OwnByte(l, t, m0, view, frame + 1 + i);
          StoreByte(l, view, m0, done + cells, frame + 1 + i, iv[i]);
          assert done + cells + {ByteCell(frame + 1 + i)} == done + (cells + {ByteCell(frame + 1 + i)});
          cells := cells + {ByteCell(frame + 1 + i)};
        }
      }
    }

    lemma LoadsFit(l: Launch, t: nat, m0: Memory, view: Memory)
      requires Fits(l, m0) && GoodLoads(l, t, m0, view)
      ensures Fits(l, view) && SameSizes(m0, view) && SameReads(l, m0, view)
    {
      FitsBySize(l, m0, view);
    }

    // ctr_crypt_kernel
    method CtrThread(src: nat, dst: nat, len: nat, ivAt: nat, gate: Option<nat>, t: nat, view: Memory,
                     ghost m0: Memory, ghost done: set<Cell>)
      returns (ghost cells: set<Cell>)
      requires At(Ctr(src, dst, len, ivAt, gate), m0, done) && GoodLoads(Ctr(src, dst, len, ivAt, gate), t, m0, view)
      modifies this`mem
      ensures CellsOf(Ctr(src, dst, len, ivAt, gate), t, cells)
      ensures At(Ctr(src, dst, len, ivAt, gate), m0, done + cells)
    {
      hide Partial, CtrByte, Exec, GoodLoads, SameReads;
      var l := Ctr(src, dst, len, ivAt, gate);
      LoadsFit(l, t, m0, view);
      cells := {};
      assert done + cells == done;
      if t >= CipherBlocks(len) {
        return;
      }
      var shut := gate.Some? && view.flags[gate.value] == 0;
      var counter := t + 2;
      if !shut && counter > 0xffff_ffff {
        cells := set a | dst + 16 * t <= a < dst + Min(16 * t + 16, len) :: ByteCell(a);
        SameGate(l, m0, view);
        forall c <- cells ensures SameCell(m0, Exec(e, l, m0), c) { CtrSkips(e, l, m0, c.at); }
        AtSkip(l, m0, done, cells);
        return;
      }
      var iv := view.bytes[ivAt..ivAt + 12];
      var streamBlock := Zeros(16);
      if !shut {
        var counterBlock := MakeCounterBlock(iv, counter);
        streamBlock := e(counterBlock);
      }
      cells := CtrStores(l, shut, iv, streamBlock, t, view, m0, done);
    }

    // The byte loop of ctr_crypt_kernel, with the gate and the stream block settled
    method CtrStores(l: Launch, shut: bool, ghost iv: Iv, streamBlock: BlockBytes, t: nat, view: Memory,
                     ghost m0: Memory, ghost done: set<Cell>)
      returns (ghost cells: set<Cell>)
      requires l.Ctr? && At(l, m0, done) && GoodLoads(l, t, m0, view) && Fits(l, view)
      requires iv == IvAt(view, l.ivAt) && shut == Shut(view, l.gate)
      requires shut || (t + 2 <= 0xffff_ffff && streamBlock == e(CounterBlock(iv, t + 2)))
      modifies this`mem
      ensures CellsOf(l, t, cells) && At(l, m0, done + cells)
    {
      hide Partial, CtrByte, Exec, StreamByte, XorByte, CounterBlock, SameReads, GoodLoads, Shut, IvAt;
      LoadsFit(l, t, m0, view);
      cells := {};
      assert done + cells == done;
      for j := 0 to 16
        invariant cells == (set a | l.dst + 16 * t <= a < l.dst + Min(16 * t + j, l.len) :: ByteCell(a))
        invariant At(l, m0, done + cells)
      {
        var pos := 16 * t + j;
        if pos < l.len {
          var v := if shut then 0 else XorByte(view.bytes[l.src + pos], streamBlock[j]);
          CtrStoresByte(l, shut, iv, streamBlock, t, view, m0, j);
          StoreByte(l, view, m0, done + cells, l.dst + pos, v);
          assert done + cells + {ByteCell(l.dst + pos)} == done + (cells + {ByteCell(l.dst + pos)});
          cells := cells + {ByteCell(l.dst + pos)};
        }
      }
    }

    // Byte j of thread t: its own, and the value the loop has for it is the one to store
    lemma CtrStoresByte(l: Launch, shut: bool, iv: Iv, streamBlock: BlockBytes, t: nat, view: Memory,
                        m0: Memory, j: nat)
      requires l.Ctr? && GoodLoads(l, t, m0, view) && Fits(l, view) && j < 16 && 16 * t + j < l.len
      requires iv == IvAt(view, l.ivAt) && shut == Shut(view, l.gate)
      requires shut || (t + 2 <= 0xffff_ffff && streamBlock == e(CounterBlock(iv, t + 2)))
      ensures var a := l.dst + 16 * t + j;
        && WritesByte(l, a) && view.bytes[a] == m0.bytes[a]
        && Exec(e, l, view).bytes[a] == if shut then 0 else XorByte(view.bytes[l.src + 16 * t + j], streamBlock[j])
    {
      hide CtrByte, Exec, StreamByte, XorByte, CounterBlock, Shut, IvAt;
      var pos := 16 * t + j;
      CtrExecAt(e, l, view, pos);
      KernelByte(e, iv, shut, view.bytes[l.src + pos], t, j, view.bytes[l.dst + pos]);
      OwnByte(l, t, m0, view, l.dst + pos);
    }

    // finalize_tag_kernel
    method FinalizeThread(frame: nat, len: nat, root: nat, t: nat, view: Memory,
                          ghost m0: Memory, ghost done: set<Cell>)
      returns (ghost cells: set<Cell>)
      requires At(Finalize(frame, len, root), m0, done) && GoodLoads(Finalize(frame, len, root), t, m0, view)
      modifies this`mem
      ensures CellsOf(Finalize(frame, len, root), t, cells) && At(Finalize(frame, len, root), m0, done + cells)
    {
      hide Partial, Exec, GoodLoads, SameReads;
      ghost var l := Finalize(frame, len, root);
      cells := {};
      assert done + cells == done;
      if t != 0 {
        return;
      }
      LoadsFit(l, t, m0, view);
      var eJ0, ghash := TagParts(view, frame, root);
      var tag := frame + HEADER_LEN + len;
      for i := 0 to 16
        invariant cells == (set a | tag <= a < tag + i :: ByteCell(a))
        invariant At(l, m0, done + cells)
      {
        FinalizeValue(e, l, view, i);
        OwnByte(l, t, m0, view, tag + i);
        StoreByte(l, view, m0, done + cells, tag + i, XorByte(eJ0[i], ghash[i]));
        assert done + cells + {ByteCell(tag + i)} == done + (cells + {ByteCell(tag + i)});
        cells := cells + {ByteCell(tag + i)};
      }
    }

    // E(J0) and the bytes of the root, as both tag kernels compute them
    method TagParts(view: Memory, frame: nat, root: nat) returns (eJ0: BlockBytes, ghash: seq<byte>)
      requires frame + 13 <= |view.bytes| && root < |view.nodes|
      ensures eJ0 == e(J0(IvAt(view, frame + 1))) && ghash == BytesOf(view.nodes[root].y)
    {
      var iv := view.bytes[frame + 1..frame + 13];
      var j0 := MakeCounterBlock(iv, 1);
      PlainJ0(iv);
      eJ0 := e(j0);
      var buffer := new byte[16];
      StoreBe128(buffer, view.nodes[root].y);
      ghash := buffer[..];
    }

    // verify_tag_kernel
    method VerifyThread(frame: nat, len: nat, root: nat, flag: nat, t: nat, view: Memory, ghost m0: Memory,
                        ghost done: set<Cell>)
      returns (ghost cells: set<Cell>)
      requires At(Verify(frame, len, root, flag), m0, done) && GoodLoads(Verify(frame, len, root, flag), t, m0, view)
      modifies this`mem
      ensures CellsOf(Verify(frame, len, root, flag), t, cells) && At(Verify(frame, len, root, flag), m0, done + cells)
      ensures t == 0 ==>
        && flag < |mem.flags| && FrameIn(view, frame, len, root)
        && mem.flags[flag] == (if FrameVerdict(e, view, frame, len, root) then 1 else 0)
    {
      hide Partial, Exec, Mask, XorByte, XorBytes, BytesOf, J0, GoodLoads, SameReads, FrameVerdict;
      ghost var l := Verify(frame, len, root, flag);
      cells := {};
      assert done + cells == done;
      if t != 0 {
        return;
      }
      LoadsFit(l, t, m0, view);
      var eJ0, ghash := TagParts(view, frame, root);
      ghost var mask := Mask(e, IvAt(view, frame + 1), view.nodes[root].y);
      var tag := frame + HEADER_LEN + len;
      var diff := 0;
      for i := 0 to 16
        modifies {}
        invariant diff == 0 <==> view.bytes[tag..tag + i] == mask[..i]
      {
        var expected := XorByte(eJ0[i], ghash[i]);
        DiffStep(diff, expected, view.bytes[tag + i]);
        assert view.bytes[tag..tag + i + 1] == view.bytes[tag..tag + i] + [view.bytes[tag + i]];
        assert mask[..i + 1] == mask[..i] + [mask[i]];
        MaskAt(e, IvAt(view, frame + 1), view.nodes[root].y, i);
        diff := Or(diff, Xor(expected, view.bytes[tag + i]));
      }
      assert mask[..16] == mask;
      FrameVerdictIs(e, view, frame, len, root);
      var verdict := if view.bytes[frame] == VERSION && diff == 0 then 1 else 0;
      assert verdict == Exec(e, l, view).flags[flag] by { VerifyValue(e, l, view); }
      cells := {FlagCell(flag)};
      OwnFlag(l, t, m0, view, flag);
      StoreFlag(l, view, m0, done, flag, verdict);
    }

    // One thread of any launch; t may lie outside the useful range
    method RunThread(l: Launch, t: nat, view: Memory, ghost m0: Memory, ghost done: set<Cell>)
      returns (ghost cells: set<Cell>)
      requires Valid() && At(l, m0, done) && GoodLoads(l, t, m0, view)
      modifies this`mem
      ensures CellsOf(l, t, cells) && At(l, m0, done + cells)
    {
      match l
      case Header(frame, iv) => cells := HeaderThread(frame, iv, t, view, m0, done);
      case Ctr(src, dst, len, ivAt, gate) => cells := CtrThread(src, dst, len, ivAt, gate, t, view, m0, done);
      case Segment(text, len, output) => cells := SegmentThread(text, len, output, t, view, m0, done);
      case Combine(input, output, count) => cells := CombineThread(input, output, count, t, view, m0, done);
      case Finalize(frame, len, root) => cells := FinalizeThread(frame, len, root, t, view, m0, done);
      case Verify(frame, len, root, flag) => cells := VerifyThread(frame, len, root, flag, t, view, m0, done);
    }

    // Whatever the order of its threads, whatever they had loaded before other threads stored, and whatever threads
    // run beyond the useful ones, a launch has one result
    method RunLaunch(l: Launch, schedule: seq<nat>, views: seq<Memory>)
      requires Valid() && Fits(l, mem)
      requires forall t :: 0 <= t < ThreadCount(l) ==> t in schedule
      requires |views| == |schedule| && forall i :: 0 <= i < |views| ==> GoodLoads(l, schedule[i], mem, views[i])
      modifies this`mem
      ensures mem == Exec(e, l, old(mem))
    {
      hide Partial, Exec, Writes, Owner, ThreadCount, Fits, GoodLoads;
      ghost var m0 := mem;
      ghost var done: set<Cell> := {};
      PartialNone(e, l, mem);
      for i := 0 to |schedule|
        invariant At(l, m0, done)
        invariant forall c: Cell :: c in done <==> Writes(l, c) && Owner(l, c) in schedule[..i]
      {
        ghost var cells := RunThread(l, schedule[i], views[i], m0, done);
        assert schedule[..i + 1] == schedule[..i] + [schedule[i]];
        done := done + cells;
      }
      assert schedule[..|schedule|] == schedule;
      forall c: Cell | Writes(l, c) ensures c in done { OwnerInGrid(l, c); }
      PartialIsExec(e, l, m0, done);
    }

    // Loads from memory as the launch found it, or as its stores left it later, are good loads
    lemma EarlyLoads(l: Launch, t: nat, m0: Memory, done: set<Cell>)
      requires Fits(l, m0) && AllWritten(l, done) && forall c <- done :: Owner(l, c) != t
      ensures GoodLoads(l, t, m0, Partial(e, l, m0, done))
    {
      hide Exec;
      ExecWithin(e, l, m0);
      BlendWithin(l, m0, Exec(e, l, m0), done);
      WithinSameReads(l, m0, Partial(e, l, m0, done));
    }

    // Storing a cell its old value is no store at all
    lemma AtSkip(l: Launch, m0: Memory, done: set<Cell>, cells: set<Cell>)
      requires At(l, m0, done) && AllWritten(l, cells)
      requires forall c <- cells :: InMemory(m0, c) && SameCell(m0, Exec(e, l, m0), c)
      ensures At(l, m0, done + cells)
    {
      hide Exec;
      BlendSkip(m0, Exec(e, l, m0), done, cells);
    }

    lemma TableHead()
      requires Valid()
      ensures table[0] == HashKey(e)
    {
      FirstEntry(HashKey(e));
    }
  }

  // load_ciphertext_term
  method LoadTerm(c: seq<byte>, i: nat) returns (x: Block128)
    requires i <= CipherBlocks(|c|)
    ensures x == Term(c, i)
  {
    if i == CipherBlocks(|c|) {
      x := Block128(0, |c| * 8 % TWO64);
    } else {
      var tmp := Zeros(16);
      for j := 0 to 16
        invariant |tmp| == 16
        invariant forall k :: 0 <= k < j ==> tmp[k] == PaddedBlock(c, i)[k]
        invariant forall k :: j <= k < 16 ==> tmp[k] == 0
      {
        if 16 * i + j < |c| {
          tmp := tmp[j := c[16 * i + j]];
        }
      }
      assert tmp == PaddedBlock(c, i);
      x := LoadBe128(tmp);
    }
  }

  // Horner over the terms of one segment
  method HashSegment(c: seq<byte>, h: Block128, t: nat) returns (node: GHashNode)
    requires t * SEGMENT_BLOCKS < CipherBlocks(|c|) + 1 < TWO64
    ensures node == Segments(h, Terms(c))[t]
  {
    var totalTerms := CipherBlocks(|c|) + 1;
    var start := t * SEGMENT_BLOCKS;
    var end := Min(start + SEGMENT_BLOCKS, totalTerms);
    ghost var xs := Terms(c);
    var y := Blocks.ZERO;
    for i := start to end
      invariant y == Ghash(h, xs[start..i])
    {
      var x := LoadTerm(c, i);
      HornerNext(h, xs, start, i);
      y := GfMul(Blocks.Add(y, x), h);
    }
    node := GHashNode(y, end - start);
  }

  lemma HornerNext(h: Block128, xs: seq<Block128>, start: nat, i: nat)
    requires start <= i < |xs|
    ensures Ghash(h, xs[start..i + 1]) == Mul(Blocks.Add(Ghash(h, xs[start..i]), xs[i]), h)
  {
    assert xs[start..i + 1][..i - start] == xs[start..i];
  }

  lemma SegmentValue(e: Cipher, l: Launch, m: Memory, t: nat)
    requires l.Segment? && Fits(l, m) && t < Segs(l.len)
    ensures Exec(e, l, m).nodes[l.output + t] == Segments(HashKey(e), Terms(m.bytes[l.text..l.text + l.len]))[t]
  {
    hide Segments, Terms, HashKey;
  }

  lemma CombineValue(e: Cipher, l: Launch, m: Memory, t: nat)
    requires l.Combine? && Fits(l, m) && 2 * t < l.count
    ensures Exec(e, l, m).nodes[l.output + t]
         == if 2 * t + 1 < l.count then Join(HashKey(e), m.nodes[l.input + 2 * t], m.nodes[l.input + 2 * t + 1])
            else m.nodes[l.input + 2 * t]
  {
    hide HashKey, Join;
  }

  lemma BlendSkip(m: Memory, x: Memory, done: set<Cell>, cells: set<Cell>)
    requires SameSizes(m, x)
    requires forall c <- cells :: InMemory(m, c) && SameCell(m, x, c)
    ensures Blend(m, x, done + cells) == Blend(m, x, done)
  {}

  // make_counter_block
  method MakeCounterBlock(iv: Iv, counter: nat) returns (block: BlockBytes)
    requires counter < TWO32
    ensures block == CounterBlock(iv, counter)
  {
    FourDigits(counter);
    block := iv + [counter / 0x100_0000, counter / 0x1_0000 % 256, counter / 0x100 % 256, counter % 256];
  }

  lemma FourDigits(v: nat)
    requires v < TWO32
    ensures Digits(v, 4) == [v / 0x100_0000, v / 0x1_0000 % 256, v / 0x100 % 256, v % 256]
  {
    var a, b, c := v / 256, v / 256 / 256, v / 256 / 256 / 256;
    assert b == v / 0x1_0000 && c == v / 0x100_0000;
    assert Digits(c, 1) == [c];
    assert Digits(b, 2) == Digits(c, 1) + [b % 256];
    assert Digits(a, 3) == Digits(b, 2) + [a % 256];
    assert Digits(v, 4) == Digits(a, 3) + [v % 256];
  }

  // The gate is among the cells read
  lemma SameGate(l: Launch, m: Memory, view: Memory)
    requires l.Ctr? && Fits(l, m) && Fits(l, view) && SameReads(l, m, view)
    ensures Shut(view, l.gate) == Shut(m, l.gate)
  {}

  lemma CtrExecAt(e: Cipher, l: Launch, m: Memory, pos: nat)
    requires l.Ctr? && Fits(l, m) && pos < l.len
    ensures Exec(e, l, m).bytes[l.dst + pos]
         == CtrByte(e, IvAt(m, l.ivAt), Shut(m, l.gate), m.bytes[l.src + pos], pos, m.bytes[l.dst + pos])
  {
    hide CtrByte;
  }

  lemma CtrSkips(e: Cipher, l: Launch, m: Memory, a: nat)
    requires l.Ctr? && Fits(l, m) && l.dst <= a < l.dst + l.len && !Shut(m, l.gate)
      && (a - l.dst) / 16 + 2 > 0xffff_ffff
    ensures Exec(e, l, m).bytes[a] == m.bytes[a]
  {
    hide Exec;
    CtrExecAt(e, l, m, a - l.dst);
  }

  lemma KernelByte(e: Cipher, iv: Iv, shut: bool, source: byte, t: nat, j: nat, before: byte)
    requires j < 16 && (shut || t + 2 <= 0xffff_ffff)
    ensures CtrByte(e, iv, shut, source, 16 * t + j, before)
      == if shut then 0 else XorByte(source, e(CounterBlock(iv, t + 2))[j])
  {}

  lemma HeaderValue(e: Cipher, l: Launch, m: Memory)
    requires l.Header? && Fits(l, m)
    ensures Exec(e, l, m).bytes[l.frame] == VERSION
    ensures forall i :: 0 <= i < 12 ==> Exec(e, l, m).bytes[l.frame + 1 + i] == l.iv[i]
  {}

  lemma FinalizeValue(e: Cipher, l: Launch, m: Memory, i: nat)
    requires l.Finalize? && Fits(l, m) && i < 16
    ensures Exec(e, l, m).bytes[l.frame + HEADER_LEN + l.len + i]
         == XorByte(e(J0(IvAt(m, l.frame + 1)))[i], BytesOf(m.nodes[l.root].y)[i])
  {
    hide XorByte, BytesOf;
  }

  lemma MaskAt(e: Cipher, iv: Iv, s: Block128, i: nat)
    requires i < 16
    ensures Mask(e, iv, s)[i] == XorByte(e(J0(iv))[i], BytesOf(s)[i])
  {}

  // A frame for len bytes and the node of its hash are in memory
  predicate FrameIn(m: Memory, frame: nat, len: nat, root: nat) { frame + len + 29 <= |m.bytes| && root < |m.nodes| }

  // Its version is 1 and its tag is that of its IV and of the hash
  predicate FrameVerdict(e: Cipher, m: Memory, frame: nat, len: nat, root: nat)
    requires FrameIn(m, frame, len, root)
  {
    && m.bytes[frame] == 1
    && m.bytes[frame + 13 + len..frame + 29 + len]
      == XorBytes(e(m.bytes[frame + 1..frame + 13] + [0, 0, 0, 1]), BytesOf(m.nodes[root].y))
  }

  lemma FrameVerdictIs(e: Cipher, m: Memory, frame: nat, len: nat, root: nat)
    requires FrameIn(m, frame, len, root)
    ensures var tag := frame + HEADER_LEN + len;
      FrameVerdict(e, m, frame, len, root) <==>
        m.bytes[frame] == VERSION && m.bytes[tag..tag + 16] == Mask(e, IvAt(m, frame + 1), m.nodes[root].y)
  {
    hide XorBytes, BytesOf;
  }

  lemma VerifyValue(e: Cipher, l: Launch, m: Memory)
    requires l.Verify? && Fits(l, m)
    ensures var tag := l.frame + HEADER_LEN + l.len;
      var mask := Mask(e, IvAt(m, l.frame + 1), m.nodes[l.root].y);
      Exec(e, l, m).flags[l.flag] == if m.bytes[l.frame] == VERSION && m.bytes[tag..tag + 16] == mask then 1 else 0
  {
    hide Mask;
    var n, tag := l.len + OVERHEAD, HEADER_LEN + l.len;
    SliceOfSlice(m.bytes, l.frame, n, tag, n);
    SliceOfSlice(m.bytes, l.frame, n, 1, HEADER_LEN);
    assert m.bytes[l.frame..l.frame + n][tag..] == m.bytes[l.frame..l.frame + n][tag..n];
  }

  // The accumulated difference stays 0 exactly while the bytes agree
  lemma {:induction false} DiffStep(diff: nat, a: nat, b: nat)
    ensures Or(diff, Xor(a, b)) == 0 <==> diff == 0 && a == b
  {
    OrIsZero(diff, Xor(a, b));
    XorIsZero(a, b);
  }

  lemma {:induction false} OrIsZero(a: nat, b: nat)
    ensures Or(a, b) == 0 <==> a == 0 && b == 0
  {
    if a != 0 || b != 0 { OrIsZero(a / 2, b / 2); }
  }

  lemma {:induction false} XorIsZero(a: nat, b: nat)
    ensures Xor(a, b) == 0 <==> a == b
  {
    if a != 0 || b != 0 { XorIsZero(a / 2, b / 2); }
  }
}
