/** Kernel launches on device memory, and why the order of their threads does not matter. */
module Launches {
  import opened Blocks
  import opened Bytes
  import opened GhashTree
  import opened Gcm
  import opened Kernels

  datatype Cell = ByteCell(at: nat) | FlagCell(at: nat) | NodeCell(at: nat)

  // The cells the launch assigns
  predicate WritesByte(l: Launch, a: nat) {
    match l
    case Header(frame, iv) => frame <= a < frame + HEADER_LEN
    case Ctr(src, dst, len, ivAt, gate) => dst <= a < dst + len
    case Finalize(frame, len, root) => frame + HEADER_LEN + len <= a < frame + len + OVERHEAD
    case _ => false
  }

  predicate WritesFlag(l: Launch, p: nat) { l.Verify? && p == l.flag }

  predicate WritesNode(l: Launch, i: nat) {
    match l
    case Segment(text, len, output) => output <= i < output + Segs(len)
    case Combine(input, output, count) => output <= i < output + CeilDiv(count, 2)
    case _ => false
  }

  predicate Writes(l: Launch, c: Cell) {
    match c
    case ByteCell(a) => WritesByte(l, a)
    case FlagCell(p) => WritesFlag(l, p)
    case NodeCell(i) => WritesNode(l, i)
  }

  // The cells whose values the stores of the launch depend on
  predicate ReadsByte(l: Launch, a: nat) {
    match l
    case Ctr(src, dst, len, ivAt, gate) => src <= a < src + len || ivAt <= a < ivAt + 12
    case Segment(text, len, output) => text <= a < text + len
    case Finalize(frame, len, root) => frame < a < frame + HEADER_LEN
    case Verify(frame, len, root, flag) => frame <= a < frame + len + OVERHEAD
    case _ => false
  }

  predicate ReadsFlag(l: Launch, p: nat) { l.Ctr? && l.gate == Some(p) }

  predicate ReadsNode(l: Launch, i: nat) {
    match l
    case Combine(input, output, count) => input <= i < input + count
    case Finalize(frame, len, root) => i == root
    case Verify(frame, len, root, flag) => i == root
    case _ => false
  }

  predicate InMemory(m: Memory, c: Cell) {
    match c
    case ByteCell(a) => a < |m.bytes|
    case FlagCell(p) => p < |m.flags|
    case NodeCell(i) => i < |m.nodes|
  }

  // ---- The effect of a whole launch ----

  function IvAt(m: Memory, a: nat): Iv
    requires a + 12 <= |m.bytes|
  {
    m.bytes[a..a + 12]
  }

  // s with t written over it from index a on
  function Splice<T>(s: seq<T>, a: nat, t: seq<T>): (r: seq<T>)
    requires a + |t| <= |s|
    ensures |r| == |s|
    ensures forall i :: 0 <= i < |s| ==> r[i] == if a <= i < a + |t| then t[i - a] else s[i]
  {
    s[..a] + t + s[a + |t|..]
  }

  // What the CTR launch leaves in its destination
  function CtrOutput(e: Cipher, iv: Iv, shut: bool, source: seq<byte>, before: seq<byte>): (out: seq<byte>)
    requires |source| == |before|
    ensures |out| == |source|
  {
    seq(|source|, i requires 0 <= i < |source| => CtrByte(e, iv, shut, source[i], i, before[i]))
  }

  predicate Shut(m: Memory, gate: Option<nat>)
    requires gate.Some? ==> gate.value < |m.flags|
  {
    gate.Some? && m.flags[gate.value] == 0
  }

  // verify_tag_kernel: version byte and tag against the root
  function Verdict(e: Cipher, frame: seq<byte>, len: nat, s: Block128): int
    requires |frame| == len + OVERHEAD
  {
    if frame[0] == VERSION && frame[HEADER_LEN + len..] == Mask(e, FrameIv(frame), s) then 1 else 0
  }

  // One contiguous run of cells and the values they end with
  datatype Effect =
    | PutBytes(at: nat, bytes: seq<byte>)
    | PutFlag(at: nat, flag: int)
    | PutNodes(at: nat, nodes: seq<GHashNode>)

  function EffectOf(e: Cipher, l: Launch, m: Memory): Effect
    requires Fits(l, m)
  {
    match l
    case Header(frame, iv) => PutBytes(frame, [VERSION] + iv)
    case Ctr(src, dst, len, ivAt, gate) =>
      PutBytes(dst, CtrOutput(e, IvAt(m, ivAt), Shut(m, gate), m.bytes[src..src + len], m.bytes[dst..dst + len]))
    case Segment(text, len, output) => PutNodes(output, Segments(HashKey(e), Terms(m.bytes[text..text + len])))
    case Combine(input, output, count) => PutNodes(output, Level(HashKey(e), m.nodes[input..input + count]))
    case Finalize(frame, len, root) => PutBytes(frame + HEADER_LEN + len, Mask(e, IvAt(m, frame + 1), m.nodes[root].y))
    case Verify(frame, len, root, flag) =>
      PutFlag(flag, Verdict(e, m.bytes[frame..frame + len + OVERHEAD], len, m.nodes[root].y))
  }

  function Apply(f: Effect, m: Memory): (m': Memory)
    ensures SameSizes(m, m')
  {
    match f
    case PutBytes(at, bytes) => if at + |bytes| <= |m.bytes| then m.(bytes := Splice(m.bytes, at, bytes)) else m
    case PutFlag(at, flag) => if at < |m.flags| then m.(flags := m.flags[at := flag]) else m
    case PutNodes(at, nodes) => if at + |nodes| <= |m.nodes| then m.(nodes := Splice(m.nodes, at, nodes)) else m
  }

  // A launch with a pointer out of bounds is undefined on the device; here it has no effect
  function Exec(e: Cipher, l: Launch, m: Memory): (m': Memory)
    ensures SameSizes(m, m')
  {
    if Fits(l, m) then Apply(EffectOf(e, l, m), m) else m
  }

  // ---- Launches in progress ----

  // Memory when exactly the cells in done have their final value
  function Blend(m: Memory, x: Memory, done: set<Cell>): (m': Memory)
    requires SameSizes(m, x)
    ensures SameSizes(m, m')
  {
    Memory(
      seq(|m.bytes|, a requires 0 <= a < |m.bytes| => if ByteCell(a) in done then x.bytes[a] else m.bytes[a]),
      seq(|m.flags|, p requires 0 <= p < |m.flags| => if FlagCell(p) in done then x.flags[p] else m.flags[p]),
      seq(|m.nodes|, i requires 0 <= i < |m.nodes| => if NodeCell(i) in done then x.nodes[i] else m.nodes[i]))
  }

  predicate SameSizes(m: Memory, m': Memory) {
    |m.bytes| == |m'.bytes| && |m.flags| == |m'.flags| && |m.nodes| == |m'.nodes|
  }

  function Partial(e: Cipher, l: Launch, m: Memory, done: set<Cell>): (m': Memory)
    ensures SameSizes(m, m')
  {
    Blend(m, Exec(e, l, m), done)
  }

  // One store: the cell gets its value from x
  function StoreCell(m: Memory, x: Memory, c: Cell): (m': Memory)
    requires SameSizes(m, x) && InMemory(m, c)
    ensures SameSizes(m, m')
  {
    match c
    case ByteCell(a) => m.(bytes := m.bytes[a := x.bytes[a]])
    case FlagCell(p) => m.(flags := m.flags[p := x.flags[p]])
    case NodeCell(i) => m.(nodes := m.nodes[i := x.nodes[i]])
  }

  // m' differs from m only in cells that l assigns
  ghost predicate Within(l: Launch, m: Memory, m': Memory) {
    && SameSizes(m, m')
    && (forall a :: 0 <= a < |m.bytes| && !WritesByte(l, a) ==> m'.bytes[a] == m.bytes[a])
    && (forall p :: 0 <= p < |m.flags| && !WritesFlag(l, p) ==> m'.flags[p] == m.flags[p])
    && (forall i :: 0 <= i < |m.nodes| && !WritesNode(l, i) ==> m'.nodes[i] == m.nodes[i])
  }

  ghost predicate SameCell(m: Memory, m': Memory, c: Cell)
    requires SameSizes(m, m') && InMemory(m, c)
  {
    match c
    case ByteCell(a) => m'.bytes[a] == m.bytes[a]
    case FlagCell(p) => m'.flags[p] == m.flags[p]
    case NodeCell(i) => m'.nodes[i] == m.nodes[i]
  }

  lemma SameSlice<T>(s: seq<T>, t: seq<T>, a: nat, n: nat)
    requires a + n <= |s| == |t|
    requires forall i :: a <= i < a + n ==> s[i] == t[i]
    ensures s[a..a + n] == t[a..a + n]
  {}

  lemma SliceOfSlice<T>(s: seq<T>, a: nat, n: nat, i: nat, j: nat)
    requires i <= j <= n && a + n <= |s|
    ensures s[a..a + n][i..j] == s[a + i..a + j]
  {
    var t, u := s[a..a + n][i..j], s[a + i..a + j];
    assert |t| == |u| && forall k | 0 <= k < |u| :: t[k] == u[k];
  }

  // x agrees with m wherever l reads
  ghost predicate SameReads(l: Launch, m: Memory, x: Memory) {
    && SameSizes(m, x)
    && (forall a :: 0 <= a < |m.bytes| && ReadsByte(l, a) ==> x.bytes[a] == m.bytes[a])
    && (forall p :: 0 <= p < |m.flags| && ReadsFlag(l, p) ==> x.flags[p] == m.flags[p])
    && (forall i :: 0 <= i < |m.nodes| && ReadsNode(l, i) ==> x.nodes[i] == m.nodes[i])
  }

  // No cell is both read and written by one launch
  lemma ReadsNotWritten(l: Launch, m: Memory)
    requires Fits(l, m)
    ensures forall a: nat :: ReadsByte(l, a) ==> !WritesByte(l, a)
    ensures forall p: nat :: ReadsFlag(l, p) ==> !WritesFlag(l, p)
    ensures forall i: nat :: i < |m.nodes| && ReadsNode(l, i) ==> !WritesNode(l, i)
  {}

  // So what the launch itself has stored so far does not change what it reads
  lemma WithinSameReads(l: Launch, m: Memory, x: Memory)
    requires Fits(l, m) && Within(l, m, x)
    ensures SameReads(l, m, x)
  {
    ReadsNotWritten(l, m);
  }

  // The value stored to a cell depends on the cells read and on nothing else
  lemma Stable(e: Cipher, l: Launch, m: Memory, m': Memory, c: Cell)
    requires SameReads(l, m, m') && InMemory(m, c) && SameCell(m, m', c)
    ensures SameCell(Exec(e, l, m), Exec(e, l, m'), c)
  {
    FitsBySize(l, m, m');
    if Fits(l, m) {
      if l.Ctr? {
        StableCtr(e, l, m, m', c);
      } else {
        SameEffect(e, l, m, m');
        ApplySame(EffectOf(e, l, m), m, m', c);
      }
    }
  }

  lemma ApplySame(f: Effect, m: Memory, m': Memory, c: Cell)
    requires SameSizes(m, m') && InMemory(m, c) && SameCell(m, m', c)
    ensures SameCell(Apply(f, m), Apply(f, m'), c)
  {}

  lemma SameEffect(e: Cipher, l: Launch, m: Memory, m': Memory)
    requires !l.Ctr? && Fits(l, m) && Fits(l, m') && SameReads(l, m, m')
    ensures EffectOf(e, l, m') == EffectOf(e, l, m)
  {
    hide Segments, Level, Terms, HashKey;
    if l.Segment? {
      SameSlice(m.bytes, m'.bytes, l.text, l.len);
    } else if l.Combine? {
      SameSlice(m.nodes, m'.nodes, l.input, l.count);
    } else {
      SameTagEffect(e, l, m, m');
    }
  }

  lemma SameTagEffect(e: Cipher, l: Launch, m: Memory, m': Memory)
    requires (l.Header? || l.Finalize? || l.Verify?) && Fits(l, m) && Fits(l, m') && SameReads(l, m, m')
    ensures EffectOf(e, l, m') == EffectOf(e, l, m)
  {
    hide Mask, Verdict;
    match l
    case Header(frame, iv) =>
    case Finalize(frame, len, root) => SameSlice(m.bytes, m'.bytes, frame + 1, 12);
    case Verify(frame, len, root, flag) => SameSlice(m.bytes, m'.bytes, frame, len + OVERHEAD);
  }

  // The CTR kernel may read the byte it is about to write, but no other that it writes
  lemma CtrNear(e: Cipher, l: Launch, m: Memory, m': Memory, i: nat)
    requires l.Ctr? && Fits(l, m) && Fits(l, m') && SameReads(l, m, m')
    requires i < l.len && m.bytes[l.dst + i] == m'.bytes[l.dst + i]
    ensures EffectOf(e, l, m).bytes[i] == EffectOf(e, l, m').bytes[i]
  {
    hide CtrOutput;
    SameSlice(m.bytes, m'.bytes, l.src, l.len);
    SameSlice(m.bytes, m'.bytes, l.ivAt, 12);
    CtrOutputAt(e, IvAt(m, l.ivAt), Shut(m, l.gate), m.bytes[l.src..l.src + l.len],
                m.bytes[l.dst..l.dst + l.len], m'.bytes[l.dst..l.dst + l.len], i);
  }

  lemma StableCtr(e: Cipher, l: Launch, m: Memory, m': Memory, c: Cell)
    requires l.Ctr? && Fits(l, m) && Fits(l, m') && SameReads(l, m, m') && InMemory(m, c) && SameCell(m, m', c)
    ensures SameCell(Exec(e, l, m), Exec(e, l, m'), c)
  {
    if c.ByteCell? && l.dst <= c.at < l.dst + l.len {
      CtrNear(e, l, m, m', c.at - l.dst);
    }
    ApplyNear(l.dst, EffectOf(e, l, m).bytes, EffectOf(e, l, m').bytes, m, m', c);
  }

  lemma ApplyNear(at: nat, s: seq<byte>, s': seq<byte>, m: Memory, m': Memory, c: Cell)
    requires SameSizes(m, m') && InMemory(m, c) && SameCell(m, m', c) && |s| == |s'|
    requires c.ByteCell? && at <= c.at < at + |s| ==> s[c.at - at] == s'[c.at - at]
    ensures SameCell(Apply(PutBytes(at, s), m), Apply(PutBytes(at, s'), m'), c)
  {}

  lemma CtrOutputAt(e: Cipher, iv: Iv, shut: bool, source: seq<byte>, before: seq<byte>, before': seq<byte>, i: nat)
    requires |source| == |before| == |before'| && i < |source| && before[i] == before'[i]
    ensures CtrOutput(e, iv, shut, source, before)[i] == CtrOutput(e, iv, shut, source, before')[i]
  {}

  // A launch leaves every other cell alone
  lemma ExecWithin(e: Cipher, l: Launch, m: Memory)
    ensures Within(l, m, Exec(e, l, m))
  {
    hide CtrOutput, Segments, Level, Mask, Verdict, Terms, HashKey;
  }

  ghost predicate AllWritten(l: Launch, done: set<Cell>) { forall c <- done :: Writes(l, c) }

  lemma BlendWithin(l: Launch, m: Memory, x: Memory, done: set<Cell>)
    requires Within(l, m, x)
    ensures Within(l, m, Blend(m, x, done))
  {}

  lemma BlendStore(m: Memory, x: Memory, x': Memory, done: set<Cell>, c: Cell)
    requires SameSizes(m, x) && SameSizes(m, x') && InMemory(m, c) && SameCell(x, x', c)
    ensures StoreCell(Blend(m, x, done), x', c) == Blend(m, x, done + {c})
  {}

  lemma FitsBySize(l: Launch, m: Memory, m': Memory)
    requires SameSizes(m, m')
    ensures Fits(l, m) <==> Fits(l, m')
  {}

  // The stores of one launch may come in any order, and the loads behind each may lie as far back as one likes:
  // x is what the storing thread has loaded
  lemma StoreAdvances(e: Cipher, l: Launch, m: Memory, x: Memory, done: set<Cell>, c: Cell)
    requires SameReads(l, m, x) && InMemory(m, c) && SameCell(m, x, c)
    ensures StoreCell(Partial(e, l, m, done), Exec(e, l, x), c) == Partial(e, l, m, done + {c})
  {
    Stable(e, l, m, x, c);
    BlendStore(m, Exec(e, l, m), Exec(e, l, x), done, c);
  }

  // In particular all of them may have come when only done0 was stored
  lemma LateStore(e: Cipher, l: Launch, m: Memory, done0: set<Cell>, done: set<Cell>, c: Cell)
    requires Fits(l, m) && done0 <= done && AllWritten(l, done) && InMemory(m, c) && c !in done
    ensures StoreCell(Partial(e, l, m, done), Exec(e, l, Partial(e, l, m, done0)), c) == Partial(e, l, m, done + {c})
  {
    hide Exec;
    var x := Partial(e, l, m, done0);
    ExecWithin(e, l, m);
    BlendWithin(l, m, Exec(e, l, m), done0);
    WithinSameReads(l, m, x);
    StoreAdvances(e, l, m, x, done, c);
  }

  // When every cell has been stored the launch has had its whole effect
  lemma PartialIsExec(e: Cipher, l: Launch, m: Memory, done: set<Cell>)
    requires forall c: Cell :: InMemory(m, c) && Writes(l, c) ==> c in done
    ensures Partial(e, l, m, done) == Exec(e, l, m)
  {
    ExecWithin(e, l, m);
    BlendAll(l, m, Exec(e, l, m), done);
  }

  lemma BlendAll(l: Launch, m: Memory, x: Memory, done: set<Cell>)
    requires Within(l, m, x)
    requires forall c: Cell :: InMemory(m, c) && Writes(l, c) ==> c in done
    ensures Blend(m, x, done) == x
  {}

  lemma PartialNone(e: Cipher, l: Launch, m: Memory)
    ensures Partial(e, l, m, {}) == m
  {}
}
