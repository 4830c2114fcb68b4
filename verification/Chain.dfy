/**
 The block tree with its skip links, and the active chain kept as an array of
 blocks.  Every fast search is proved equal to walking back one block at a time.
 */
module Chain {
  // ------------------------------------------------------------- skip heights

  /** Bitwise and of two natural numbers. */
  function And(a: nat, b: nat): (r: nat)
    ensures r <= a && r <= b
  {
    if a == 0 || b == 0 then 0 else 2 * And(a / 2, b / 2) + (if a % 2 == 1 && b % 2 == 1 then 1 else 0)
  }

  /** Clears the lowest set bit. */
  function InvertLowestOne(n: nat): (r: nat)
    ensures r < n || r == n == 0
  {
    if n == 0 then 0 else And(n, n - 1)
  }

  lemma AndSelf(a: nat)
    ensures And(a, a) == a
  {
  }

  /** An odd number loses its last bit, an even one loses what its half loses. */
  lemma InvertLowestOneBits(n: nat)
    ensures InvertLowestOne(2 * n + 1) == 2 * n
    ensures InvertLowestOne(2 * n) == 2 * InvertLowestOne(n)
  {
    AndSelf(n);
    if n > 0 {
      assert (2 * n - 1) / 2 == n - 1;
    }
  }

  /** The height the skip link of a block leads to. */
  function GetSkipHeight(height: nat): (r: nat)
    ensures r < height || r == height == 0
  {
    if height < 2 then 0
    else if height % 2 == 1 then InvertLowestOne(InvertLowestOne(height - 1)) + 1
    else InvertLowestOne(height)
  }

  // --------------------------------------------------------------- block tree

  class CBlockIndex {
    var pprev: CBlockIndex?
    var pskip: CBlockIndex?
    var nHeight: nat

    constructor (prev: CBlockIndex?)
      ensures pprev == prev && pskip == null && nHeight == (if prev == null then 0 else prev.nHeight + 1)
    {
      pprev, pskip := prev, null;
      nHeight := if prev == null then 0 else prev.nHeight + 1;
    }

    /** The ancestor at a height, found through skip links: the same block as walking back one at a time. */
    method GetAncestor(ghost nodes: set<CBlockIndex>, height: int) returns (r: CBlockIndex?)
      requires Tree(nodes) && Skips(nodes) && this in nodes
      ensures r == null <==> height < 0 || height > nHeight
      ensures r != null ==> r in nodes && r.nHeight == height && r == Walk(nodes, this, height)
    {
      if height > nHeight || height < 0 {
        return null;
      }
      var walk := this;
      var heightWalk := nHeight;
      while heightWalk > height
        invariant walk in nodes && walk.nHeight == heightWalk >= height
        invariant Walk(nodes, walk, height) == Walk(nodes, this, height)
        decreases heightWalk
      {
        var heightSkip := GetSkipHeight(heightWalk);
        var heightSkipPrev := GetSkipHeight(heightWalk - 1);
        if walk.pskip != null
           && (heightSkip == height
               || (heightSkip > height && !(heightSkipPrev < heightSkip - 2 && heightSkipPrev >= height))) {
          WalkFromWalk(nodes, walk.pprev, heightSkip, height);
          walk := walk.pskip;
          heightWalk := heightSkip;
        } else {
          walk := walk.pprev;
          heightWalk := heightWalk - 1;
        }
      }
      r := walk;
    }

    /** Sets the skip link; every other skip link stays right. */
    method BuildSkip(ghost nodes: set<CBlockIndex>)
      requires Tree(nodes) && Skips(nodes) && this in nodes
      modifies this`pskip
      ensures Tree(nodes) && Skips(nodes)
      ensures pprev != null ==> pskip == Walk(nodes, pprev, GetSkipHeight(nHeight))
      ensures pprev == null ==> pskip == old(pskip)
    {
      if pprev != null {
        pskip := pprev.GetAncestor(nodes, GetSkipHeight(nHeight));
      }
    }
  }

  /** Heights count the blocks before a block, and the set holds all of them. */
  ghost predicate Tree(nodes: set<CBlockIndex>)
    reads nodes`pprev, nodes`nHeight
  {
    forall b | b in nodes ::
      if b.pprev == null then b.nHeight == 0 else b.pprev in nodes && b.nHeight == b.pprev.nHeight + 1
  }

  /** The block at a height, found by walking back one block at a time. */
  ghost function Walk(nodes: set<CBlockIndex>, b: CBlockIndex, height: nat): (r: CBlockIndex)
    requires Tree(nodes) && b in nodes && height <= b.nHeight
    reads nodes`pprev, nodes`nHeight
    ensures r in nodes && r.nHeight == height
    decreases b.nHeight
  {
    if b.nHeight == height then b else Walk(nodes, b.pprev, height)
  }

  /** Every skip link that is set leads to the ancestor at the skip height. */
  ghost predicate Skips(nodes: set<CBlockIndex>)
    requires Tree(nodes)
    reads nodes
  {
    forall b | b in nodes && b.pskip != null ::
      b.pprev != null && b.pskip == Walk(nodes, b.pprev, GetSkipHeight(b.nHeight))
  }

  ghost predicate IsAncestor(nodes: set<CBlockIndex>, a: CBlockIndex, b: CBlockIndex)
    requires Tree(nodes) && b in nodes
    reads a, nodes`pprev, nodes`nHeight
  {
    a.nHeight <= b.nHeight && a == Walk(nodes, b, a.nHeight)
  }

  lemma {:induction false} WalkFromWalk(nodes: set<CBlockIndex>, b: CBlockIndex, mid: nat, height: nat)
    requires Tree(nodes) && b in nodes && height <= mid <= b.nHeight
    ensures Walk(nodes, Walk(nodes, b, mid), height) == Walk(nodes, b, height)
    decreases b.nHeight
  {
    if b.nHeight > mid {
      WalkFromWalk(nodes, b.pprev, mid, height);
    }
  }

  /** More blocks in the tree change no walk. */
  lemma {:induction false} WalkInLarger(nodes: set<CBlockIndex>, more: set<CBlockIndex>, b: CBlockIndex, height: nat)
    requires Tree(nodes) && Tree(more) && nodes <= more && b in nodes && height <= b.nHeight
    ensures Walk(nodes, b, height) == Walk(more, b, height)
    decreases b.nHeight
  {
    if b.nHeight > height {
      WalkInLarger(nodes, more, b.pprev, height);
    }
  }

  /** Adds a block to the tree, after a block of it or as a new root. */
  method AddBlock(ghost nodes: set<CBlockIndex>, prev: CBlockIndex?) returns (b: CBlockIndex)
    requires Tree(nodes) && Skips(nodes) && (prev == null || prev in nodes)
    ensures fresh(b) && b.pprev == prev && Tree(nodes + {b}) && Skips(nodes + {b})
    ensures prev != null ==> b.pskip != null
  {
    b := new CBlockIndex(prev);
    ghost var more := nodes + {b};
    assert Tree(more);
    forall c | c in nodes && c.pskip != null
      ensures c.pprev != null && c.pskip == Walk(more, c.pprev, GetSkipHeight(c.nHeight))
    {
      WalkInLarger(nodes, more, c.pprev, GetSkipHeight(c.nHeight));
    }
    if prev != null {
      b.BuildSkip(more);
    }
  }

  class BlockManager {
    /** The known blocks by the hashes of their headers. */
    var blockIndex: map<nat, CBlockIndex>

    /** The known blocks form a tree with right skip links, and each is known under one hash. */
    ghost predicate Valid()
      reads this, blockIndex.Values
    {
      && Tree(blockIndex.Values) && Skips(blockIndex.Values)
      && forall h, k | h in blockIndex && k in blockIndex && h != k :: blockIndex[h] != blockIndex[k]
    }

    constructor ()
      ensures Valid() && blockIndex == map[]
    {
      blockIndex := map[];
    }

    /** The block of a header: the one known under its hash, or a new one after the block of its predecessor's hash. */
    method AddToBlockIndex(hash: nat, prevHash: nat) returns (b: CBlockIndex)
      requires Valid() && hash != prevHash
      modifies this`blockIndex
      ensures Valid() && hash in blockIndex && blockIndex[hash] == b
      ensures hash in old(blockIndex) ==> blockIndex == old(blockIndex)
      ensures hash !in old(blockIndex) ==>
                && fresh(b) && blockIndex == old(blockIndex)[hash := b]
                && b.pprev == (if prevHash in old(blockIndex) then old(blockIndex)[prevHash] else null)
                && b.nHeight == (if b.pprev == null then 0 else b.pprev.nHeight + 1)
                && (b.pprev != null ==> b.pskip != null)
    {
      if hash in blockIndex {
        return blockIndex[hash];
      }
      var prev: CBlockIndex? := null;
      if prevHash in blockIndex {
        prev := blockIndex[prevHash];
      }
      ghost var nodes := blockIndex.Values;
      b := AddBlock(nodes, prev);
      blockIndex := blockIndex[hash := b];
      assert blockIndex.Values == nodes + {b} by { NewValue(old(blockIndex), hash, b); }
    }
  }

  lemma NewValue<K, V>(m: map<K, V>, k: K, v: V)
    requires k !in m
    ensures m[k := v].Values == m.Values + {v}
  {
    forall x
      ensures x in m[k := v].Values <==> x in m.Values + {v}
    {
      if x in m.Values {
        var j :| j in m && m[j] == x;
        assert m[k := v][j] == x;
      }
      assert m[k := v][k] == v;
    }
  }

  /** Every common ancestor of a and b is a common ancestor of pa and pb. */
  ghost predicate CommonUnder(nodes: set<CBlockIndex>, a: CBlockIndex, b: CBlockIndex, pa: CBlockIndex?,
                              pb: CBlockIndex?)
    requires Tree(nodes) && a in nodes && b in nodes && (pa == null || pa in nodes) && (pb == null || pb in nodes)
    reads nodes
  {
    forall c | c in nodes && IsAncestor(nodes, c, a) && IsAncestor(nodes, c, b) ::
      pa != null && pb != null && IsAncestor(nodes, c, pa) && IsAncestor(nodes, c, pb)
  }

  /** The last block two blocks descend from, or null when they have none: every common ancestor is an ancestor
      of it. */
  method LastCommonAncestor(ghost nodes: set<CBlockIndex>, a: CBlockIndex, b: CBlockIndex) returns (r: CBlockIndex?)
    requires Tree(nodes) && Skips(nodes) && a in nodes && b in nodes
    ensures r != null ==> r in nodes && IsAncestor(nodes, r, a) && IsAncestor(nodes, r, b)
    ensures CommonUnder(nodes, a, b, r, r)
  {
    hide Walk, IsAncestor, CommonUnder, Skips;
    SelfAncestor(nodes, a);
    SelfAncestor(nodes, b);
    var pa: CBlockIndex?, pb: CBlockIndex? := a, b;
    if a.nHeight > b.nHeight {
      pa := a.GetAncestor(nodes, b.nHeight);
      WalkIsAncestor(nodes, a, b.nHeight);
    } else if b.nHeight > a.nHeight {
      pb := b.GetAncestor(nodes, a.nHeight);
      WalkIsAncestor(nodes, b, a.nHeight);
    }
    AncestorsBelow(nodes, a, b, pa, pb);
    while pa != pb && pa != null && pb != null
      invariant pa == null <==> pb == null
      invariant pa != null ==> pa in nodes && pb in nodes && pa.nHeight == pb.nHeight
      invariant pa != null ==> IsAncestor(nodes, pa, a) && IsAncestor(nodes, pb, b)
      invariant CommonUnder(nodes, a, b, pa, pb)
      decreases if pa == null then 0 else pa.nHeight + 1
    {
      ParentIsAncestor(nodes, pa, a);
      ParentIsAncestor(nodes, pb, b);
      CommonStep(nodes, a, b, pa, pb);
      pa := pa.pprev;
      pb := pb.pprev;
    }
    assert pa == pb;
    r := pa;
  }

  lemma WalkIsAncestor(nodes: set<CBlockIndex>, b: CBlockIndex, height: nat)
    requires Tree(nodes) && b in nodes && height <= b.nHeight
    ensures IsAncestor(nodes, Walk(nodes, b, height), b)
  {
  }

  lemma CommonStep(nodes: set<CBlockIndex>, a: CBlockIndex, b: CBlockIndex, pa: CBlockIndex, pb: CBlockIndex)
    requires Tree(nodes) && a in nodes && b in nodes && pa in nodes && pb in nodes
    requires pa != pb && pa.nHeight == pb.nHeight && CommonUnder(nodes, a, b, pa, pb)
    ensures CommonUnder(nodes, a, b, pa.pprev, pb.pprev)
  {
    forall c | c in nodes && IsAncestor(nodes, c, a) && IsAncestor(nodes, c, b)
      ensures pa.pprev != null && pb.pprev != null && IsAncestor(nodes, c, pa.pprev) && IsAncestor(nodes, c, pb.pprev)
    {
      assert c.nHeight != pa.nHeight;
    }
  }

  lemma AncestorsBelow(nodes: set<CBlockIndex>, a: CBlockIndex, b: CBlockIndex, pa: CBlockIndex, pb: CBlockIndex)
    requires Tree(nodes) && a in nodes && b in nodes && pa in nodes && pb in nodes
    requires IsAncestor(nodes, pa, a) && IsAncestor(nodes, pb, b)
    requires pa.nHeight == pb.nHeight && (pa.nHeight == a.nHeight || pa.nHeight == b.nHeight)
    ensures CommonUnder(nodes, a, b, pa, pb)
  {
    forall c | c in nodes && IsAncestor(nodes, c, a) && IsAncestor(nodes, c, b)
      ensures IsAncestor(nodes, c, pa) && IsAncestor(nodes, c, pb)
    {
      WalkFromWalk(nodes, a, pa.nHeight, c.nHeight);
      WalkFromWalk(nodes, b, pb.nHeight, c.nHeight);
    }
  }

  lemma SelfAncestor(nodes: set<CBlockIndex>, b: CBlockIndex)
    requires Tree(nodes) && b in nodes
    ensures IsAncestor(nodes, b, b)
  {
  }

  lemma ParentIsAncestor(nodes: set<CBlockIndex>, p: CBlockIndex, a: CBlockIndex)
    requires Tree(nodes) && p in nodes && a in nodes && IsAncestor(nodes, p, a)
    ensures p.pprev != null ==> IsAncestor(nodes, p.pprev, a)
  {
    if p.pprev != null {
      WalkFromWalk(nodes, a, p.nHeight, p.nHeight - 1);
    }
  }

  // ------------------------------------------------------------- active chain

  class CChain {
    var vChain: seq<CBlockIndex?>

    constructor ()
      ensures vChain == []
    {
      vChain := [];
    }

    /** The blocks from a root to the tip, each at its height. */
    ghost predicate Valid(nodes: set<CBlockIndex>)
      requires Tree(nodes)
      reads this, nodes`pprev, nodes`nHeight
    {
      vChain != [] ==> IsChain(nodes, vChain)
    }

    function Height(): int
      reads this
    {
      |vChain| - 1
    }

    predicate Contains(p: CBlockIndex)
      reads this, p
    {
      p.nHeight < |vChain| && vChain[p.nHeight] == p
    }

    /** Makes a block the tip: the chain is then exactly its ancestors, although the loop stops at the first block
        already in place. */
    method SetTip(ghost nodes: set<CBlockIndex>, tip: CBlockIndex?)
      requires Tree(nodes) && Valid(nodes) && (tip == null || tip in nodes)
      modifies this
      ensures Valid(nodes)
      ensures tip == null ==> vChain == []
      ensures tip != null ==> |vChain| == tip.nHeight + 1 && Placed(nodes, vChain, tip, 0)
    {
      if tip == null {
        vChain := [];
        return;
      }
      hide Walk, IsAncestor, Resized, Placed, SameUpTo, IsChain;
      SelfAncestor(nodes, tip);
      ghost var was := vChain;
      ghost var resized := Resized(vChain, tip.nHeight + 1);
      vChain := Resized(vChain, tip.nHeight + 1);
      PlacedNone(nodes, vChain, tip);
      SameAll(vChain, tip.nHeight);
      var p: CBlockIndex? := tip;
      while p != null && vChain[p.nHeight] != p
        invariant |vChain| == tip.nHeight + 1
        invariant p != null ==> p in nodes && p.nHeight <= tip.nHeight && IsAncestor(nodes, p, tip)
        invariant Placed(nodes, vChain, tip, if p == null then 0 else p.nHeight + 1)
        invariant p != null ==> SameUpTo(vChain, resized, p.nHeight)
        decreases if p == null then 0 else p.nHeight + 1
      {
        PlacedStep(nodes, vChain, tip, p);
        SameStep(vChain, resized, p.nHeight, p);
        vChain := vChain[p.nHeight := p];
        ParentIsAncestor(nodes, p, tip);
        p := p.pprev;
      }
      if p != null {
        PlacedRest(nodes, was, vChain, tip, p);
      }
      PlacedAll(nodes, vChain, tip);
    }

    /** The highest block of this chain that a block descends from, or null. */
    method FindFork(ghost nodes: set<CBlockIndex>, pindex: CBlockIndex?) returns (r: CBlockIndex?)
      requires Tree(nodes) && Skips(nodes) && Valid(nodes) && (pindex == null || pindex in nodes)
      ensures r != null ==> pindex != null && r in nodes && Contains(r) && IsAncestor(nodes, r, pindex)
      ensures pindex != null ==> ForkUnder(nodes, pindex, r)
    {
      if pindex == null {
        return null;
      }
      hide Walk, IsAncestor, ForkUnder, Skips, Valid;
      SelfAncestor(nodes, pindex);
      var p: CBlockIndex? := pindex;
      if pindex.nHeight > Height() {
        p := pindex.GetAncestor(nodes, Height());
        if p != null {
          WalkIsAncestor(nodes, pindex, p.nHeight);
        }
      }
      ForkStart(nodes, pindex, p);
      while p != null && !Contains(p)
        invariant p != null ==> p in nodes && IsAncestor(nodes, p, pindex)
        invariant ForkUnder(nodes, pindex, p)
        decreases if p == null then 0 else p.nHeight + 1
      {
        ParentIsAncestor(nodes, p, pindex);
        ForkStep(nodes, pindex, p);
        p := p.pprev;
      }
      r := p;
    }

    /** Every block of this chain that a block descends from is p or an ancestor of p. */
    ghost predicate ForkUnder(nodes: set<CBlockIndex>, b: CBlockIndex, p: CBlockIndex?)
      requires Tree(nodes) && b in nodes && (p == null || p in nodes)
      reads this, nodes
    {
      forall c | c in nodes && Contains(c) && IsAncestor(nodes, c, b) :: p != null && IsAncestor(nodes, c, p)
    }

    lemma ForkStart(nodes: set<CBlockIndex>, b: CBlockIndex, p: CBlockIndex?)
      requires Tree(nodes) && b in nodes && (p == null ==> Height() < 0)
      requires p != null ==> p in nodes && IsAncestor(nodes, p, b) && (p == b || p.nHeight == Height())
      ensures ForkUnder(nodes, b, p)
    {
      if p != null {
        AncestorsUpTo(nodes, b, p);
      }
    }

    lemma ForkStep(nodes: set<CBlockIndex>, b: CBlockIndex, p: CBlockIndex)
      requires Tree(nodes) && b in nodes && p in nodes && !Contains(p) && ForkUnder(nodes, b, p)
      ensures ForkUnder(nodes, b, p.pprev)
    {
      forall c | c in nodes && Contains(c) && IsAncestor(nodes, c, b)
        ensures p.pprev != null && IsAncestor(nodes, c, p.pprev)
      {
        assert c != p && c.nHeight != p.nHeight;
      }
    }
  }

  /** A vector resized: cut, or filled with nulls. */
  function Resized(s: seq<CBlockIndex?>, n: nat): (r: seq<CBlockIndex?>)
    ensures |r| == n && forall i | 0 <= i < n :: r[i] == if i < |s| then s[i] else null
  {
    if n <= |s| then s[..n] else s + seq(n - |s|, _ => null)
  }

  ghost predicate IsChain(nodes: set<CBlockIndex>, chain: seq<CBlockIndex?>)
    requires Tree(nodes) && chain != []
    reads nodes`pprev, nodes`nHeight
  {
    var tip := chain[|chain| - 1];
    && tip != null && tip in nodes && tip.nHeight == |chain| - 1
    && forall h | 0 <= h < |chain| :: chain[h] == Walk(nodes, tip, h)
  }

  /** The places from a height on hold the ancestors of the tip. */
  ghost predicate Placed(nodes: set<CBlockIndex>, chain: seq<CBlockIndex?>, tip: CBlockIndex, from: nat)
    requires Tree(nodes) && tip in nodes && |chain| == tip.nHeight + 1
    reads nodes`pprev, nodes`nHeight
  {
    forall h | from <= h <= tip.nHeight :: chain[h] == Walk(nodes, tip, h)
  }

  ghost predicate SameUpTo(s: seq<CBlockIndex?>, t: seq<CBlockIndex?>, n: nat) {
    n < |s| && n < |t| && forall i | 0 <= i <= n :: s[i] == t[i]
  }

  lemma SameAll(s: seq<CBlockIndex?>, n: nat)
    requires n < |s|
    ensures SameUpTo(s, s, n)
  {
  }

  lemma SameStep(s: seq<CBlockIndex?>, t: seq<CBlockIndex?>, n: nat, p: CBlockIndex)
    requires SameUpTo(s, t, n)
    ensures n > 0 ==> SameUpTo(s[n := p], t, n - 1)
  {
  }

  lemma PlacedNone(nodes: set<CBlockIndex>, chain: seq<CBlockIndex?>, tip: CBlockIndex)
    requires Tree(nodes) && tip in nodes && |chain| == tip.nHeight + 1
    ensures Placed(nodes, chain, tip, tip.nHeight + 1)
  {
  }

  lemma PlacedStep(nodes: set<CBlockIndex>, chain: seq<CBlockIndex?>, tip: CBlockIndex, p: CBlockIndex)
    requires Tree(nodes) && tip in nodes && p in nodes && |chain| == tip.nHeight + 1
    requires IsAncestor(nodes, p, tip) && Placed(nodes, chain, tip, p.nHeight + 1)
    ensures Placed(nodes, chain[p.nHeight := p], tip, p.nHeight)
  {
  }

  /** Below a block that was already in place, so were all its ancestors. */
  lemma PlacedRest(nodes: set<CBlockIndex>, was: seq<CBlockIndex?>, chain: seq<CBlockIndex?>, tip: CBlockIndex,
                   p: CBlockIndex)
    requires Tree(nodes) && tip in nodes && p in nodes && |chain| == tip.nHeight + 1
    requires IsAncestor(nodes, p, tip) && Placed(nodes, chain, tip, p.nHeight + 1) && chain[p.nHeight] == p
    requires (was != [] ==> IsChain(nodes, was)) && SameUpTo(chain, Resized(was, tip.nHeight + 1), p.nHeight)
    ensures Placed(nodes, chain, tip, 0)
  {
    hide Walk;
    forall h | 0 <= h <= p.nHeight
      ensures chain[h] == Walk(nodes, tip, h)
    {
      ChainBelow(nodes, was, p.nHeight, h);
      WalkFromWalk(nodes, tip, p.nHeight, h);
    }
  }

  lemma PlacedAll(nodes: set<CBlockIndex>, chain: seq<CBlockIndex?>, tip: CBlockIndex)
    requires Tree(nodes) && tip in nodes && |chain| == tip.nHeight + 1 && Placed(nodes, chain, tip, 0)
    ensures IsChain(nodes, chain)
  {
  }

  lemma ChainBelow(nodes: set<CBlockIndex>, chain: seq<CBlockIndex?>, i: nat, h: nat)
    requires Tree(nodes) && chain != [] && IsChain(nodes, chain) && h <= i < |chain|
    ensures chain[i] != null && chain[i] in nodes && chain[i].nHeight == i && chain[h] == Walk(nodes, chain[i], h)
  {
    WalkFromWalk(nodes, chain[|chain| - 1], i, h);
  }

  lemma AncestorsUpTo(nodes: set<CBlockIndex>, a: CBlockIndex, p: CBlockIndex)
    requires Tree(nodes) && a in nodes && p in nodes && IsAncestor(nodes, p, a)
    ensures forall c | c in nodes && IsAncestor(nodes, c, a) && c.nHeight <= p.nHeight :: IsAncestor(nodes, c, p)
  {
    forall c | c in nodes && IsAncestor(nodes, c, a) && c.nHeight <= p.nHeight
      ensures IsAncestor(nodes, c, p)
    {
      WalkFromWalk(nodes, a, p.nHeight, c.nHeight);
    }
  }
}
