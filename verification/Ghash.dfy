/** GHASH: the sequential definition, and the segments and tree that compute it in parallel. */
module GhashTree {
  import opened Words
  import opened Blocks

  // Section 6.4 of NIST SP 800-38D: Y_i = (Y_{i-1} xor X_i) * H
  function Ghash(h: Block128, xs: seq<Block128>): Block128 {
    if xs == [] then ZERO else Mul(Add(Ghash(h, xs[..|xs| - 1]), xs[|xs| - 1]), h)
  }

  function Pow(h: Block128, n: nat): Block128 { if n == 0 then ONE else Mul(Pow(h, n - 1), h) }

  datatype GHashNode = GHashNode(y: Block128, lenBlocks: uint64)

  // The node an ideal thread leaves for the terms xs
  function NodeOf(h: Block128, xs: seq<Block128>): GHashNode
    requires |xs| < TWO64
  {
    GHashNode(Ghash(h, xs), |xs|)
  }

  // GHASH(A || B) = GHASH(A) * H^LB xor GHASH(B)
  function Join(h: Block128, a: GHashNode, b: GHashNode): GHashNode {
    GHashNode(Add(Mul(a.y, Pow(h, b.lenBlocks)), b.y), (a.lenBlocks + b.lenBlocks) % TWO64)
  }

  lemma {:induction false} PowAdd(h: Block128, m: nat, n: nat)
    ensures Pow(h, m + n) == Mul(Pow(h, m), Pow(h, n))
  {
    if n == 0 {
      MulOne(Pow(h, m));
    } else {
      PowAdd(h, m, n - 1);
      MulAssociates(Pow(h, m), Pow(h, n - 1), h);
    }
  }

  // (a * p + b + x) * h == a * (p * h) + (b + x) * h
  lemma HornerStep(a: Block128, p: Block128, b: Block128, x: Block128, h: Block128)
    ensures Mul(Add(Add(Mul(a, p), b), x), h) == Add(Mul(a, Mul(p, h)), Mul(Add(b, x), h))
  {
    AddLaws(Mul(a, p), b, x);
    MulDistributes(Mul(a, p), Add(b, x), h);
    MulAssociates(a, p, h);
  }

  lemma {:induction false} GhashAppend(h: Block128, xs: seq<Block128>, ys: seq<Block128>)
    ensures Ghash(h, xs + ys) == Add(Mul(Ghash(h, xs), Pow(h, |ys|)), Ghash(h, ys))
  {
    if ys == [] {
      assert xs + ys == xs;
      MulOne(Ghash(h, xs));
      AddLaws(Ghash(h, xs), ZERO, ZERO);
    } else {
      var front, last := ys[..|ys| - 1], ys[|ys| - 1];
      assert (xs + ys)[..|xs + ys| - 1] == xs + front;
      GhashAppend(h, xs, front);
      HornerStep(Ghash(h, xs), Pow(h, |front|), Ghash(h, front), last, h);
    }
  }

  lemma JoinNodes(h: Block128, xs: seq<Block128>, ys: seq<Block128>)
    requires |xs| + |ys| < TWO64
    ensures Join(h, NodeOf(h, xs), NodeOf(h, ys)) == NodeOf(h, xs + ys)
  {
    GhashAppend(h, xs, ys);
  }

  // ---- Segments ----

  const SEGMENT_BLOCKS := 64

  function CeilDiv(n: nat, d: nat): nat
    requires d > 0
  {
    (n + d - 1) / d
  }

  function Min(a: nat, b: nat): nat { if a <= b then a else b }

  // Terms of segment s
  function SegmentTerms(xs: seq<Block128>, s: nat): seq<Block128>
    requires s * SEGMENT_BLOCKS < |xs|
  {
    xs[s * SEGMENT_BLOCKS .. Min(s * SEGMENT_BLOCKS + SEGMENT_BLOCKS, |xs|)]
  }

  // What ghash_segment_kernel leaves in the first workspace buffer
  function Segments(h: Block128, xs: seq<Block128>): (nodes: seq<GHashNode>)
    requires |xs| < TWO64
    ensures |nodes| == CeilDiv(|xs|, SEGMENT_BLOCKS)
  {
    var n := CeilDiv(|xs|, SEGMENT_BLOCKS);
    seq(n, s requires 0 <= s < n => NodeOf(h, SegmentTerms(xs, s)))
  }

  // ---- The reduction tree ----

  // What one ghash_combine_kernel launch leaves in the other buffer
  function Level(h: Block128, nodes: seq<GHashNode>): (next: seq<GHashNode>)
    ensures |next| == CeilDiv(|nodes|, 2)
  {
    seq(CeilDiv(|nodes|, 2), i requires 0 <= i < CeilDiv(|nodes|, 2) =>
      if 2 * i + 1 < |nodes| then Join(h, nodes[2 * i], nodes[2 * i + 1]) else nodes[2 * i])
  }

  function Root(h: Block128, nodes: seq<GHashNode>): GHashNode
    requires nodes != []
    decreases |nodes|
  {
    if |nodes| == 1 then nodes[0] else Root(h, Level(h, nodes))
  }

  // nodes[i] is the node of the terms between cuts[i] and cuts[i + 1]
  ghost predicate CoversAt(h: Block128, nodes: seq<GHashNode>, xs: seq<Block128>, cuts: seq<nat>, i: nat)
    requires |cuts| == |nodes| + 1 && |xs| < TWO64 && i < |nodes|
  {
    cuts[i] <= cuts[i + 1] <= |xs| && nodes[i] == NodeOf(h, xs[cuts[i]..cuts[i + 1]])
  }

  // The nodes stand, in order, for consecutive runs of terms that make up xs
  ghost predicate Covers(h: Block128, nodes: seq<GHashNode>, xs: seq<Block128>, cuts: seq<nat>) {
    && |xs| < TWO64
    && |cuts| == |nodes| + 1 && cuts[0] == 0 && cuts[|nodes|] == |xs|
    && forall i :: 0 <= i < |nodes| ==> CoversAt(h, nodes, xs, cuts, i)
  }

  lemma SegmentsCover(h: Block128, xs: seq<Block128>) returns (cuts: seq<nat>)
    requires |xs| < TWO64
    ensures Covers(h, Segments(h, xs), xs, cuts)
  {
    var n := CeilDiv(|xs|, SEGMENT_BLOCKS);
    cuts := seq(n + 1, s requires s >= 0 => Min(s * SEGMENT_BLOCKS, |xs|));
    forall s | 0 <= s < n
      ensures CoversAt(h, Segments(h, xs), xs, cuts, s)
    {
      assert xs[cuts[s]..cuts[s + 1]] == SegmentTerms(xs, s);
    }
  }

  lemma LevelCovers(h: Block128, nodes: seq<GHashNode>, xs: seq<Block128>, cuts: seq<nat>) returns (cuts': seq<nat>)
    requires Covers(h, nodes, xs, cuts)
    ensures Covers(h, Level(h, nodes), xs, cuts')
  {
    hide Join, NodeOf;
    var n' := CeilDiv(|nodes|, 2);
    cuts' := seq(n' + 1, i requires 0 <= i <= n' => cuts[Min(2 * i, |nodes|)]);
    forall i | 0 <= i < n'
      ensures CoversAt(h, Level(h, nodes), xs, cuts', i)
    {
      assert CoversAt(h, nodes, xs, cuts, 2 * i);
      if 2 * i + 1 < |nodes| {
        assert CoversAt(h, nodes, xs, cuts, 2 * i + 1);
        JoinRanges(h, xs, cuts[2 * i], cuts[2 * i + 1], cuts[2 * i + 2]);
      }
    }
  }

  lemma JoinRanges(h: Block128, xs: seq<Block128>, i: nat, j: nat, k: nat)
    requires i <= j <= k <= |xs| < TWO64
    ensures Join(h, NodeOf(h, xs[i..j]), NodeOf(h, xs[j..k])) == NodeOf(h, xs[i..k])
  {
    assert xs[i..j] + xs[j..k] == xs[i..k];
    JoinNodes(h, xs[i..j], xs[j..k]);
  }

  lemma {:induction false} RootCovers(h: Block128, nodes: seq<GHashNode>, xs: seq<Block128>, cuts: seq<nat>)
    requires Covers(h, nodes, xs, cuts) && nodes != []
    ensures Root(h, nodes) == NodeOf(h, xs)
    decreases |nodes|
  {
    if |nodes| == 1 {
      assert CoversAt(h, nodes, xs, cuts, 0);
      assert xs[cuts[0]..cuts[1]] == xs;
    } else {
      var cuts' := LevelCovers(h, nodes, xs, cuts);
      RootCovers(h, Level(h, nodes), xs, cuts');
    }
  }

  // The tree computes sequential GHASH, for every number of terms
  lemma TreeIsGhash(h: Block128, xs: seq<Block128>)
    requires 0 < |xs| < TWO64
    ensures Root(h, Segments(h, xs)) == NodeOf(h, xs)
  {
    var cuts := SegmentsCover(h, xs);
    RootCovers(h, Segments(h, xs), xs, cuts);
  }

  // ---- How many levels ----

  function Levels(count: nat): nat { if count <= 1 then 0 else 1 + Levels(CeilDiv(count, 2)) }

  // Levels(count) is the ceiling of log2(count)
  lemma {:induction false} LevelsIsCeilLog2(count: nat)
    requires count >= 1
    ensures count <= Pow2(Levels(count))
    ensures count > 1 ==> Levels(count) >= 1 && Pow2(Levels(count) - 1) < count
  {
    if count > 1 { LevelsIsCeilLog2(CeilDiv(count, 2)); }
  }
}
