/**
 How large partial Merkle trees are: the exact number of flag bits for a number
 of hashes, when the bound that the format states for the bits holds, and when
 the bound it derives for the whole serialization holds.
 */
module MerkleSize {
  import opened Arithmetic
  import opened MerkleModel
  import opened MerkleTheorems

  /** The last node of a level is an only child's parent, and a selected leaf lies below it. */
  ghost predicate LoneAt(mask: seq<bool>, height: nat)
    requires height > 0
  {
    TreeWidth(|mask|, height - 1) % 2 == 1 && LastMatches(mask, height)
  }

  ghost predicate LastMatches(mask: seq<bool>, height: nat) {
    TreeWidth(|mask|, height) > 0 && ParentOfMatch(mask, height, TreeWidth(|mask|, height) - 1)
  }

  /** The number of levels up to a height at which a node with only one child is expanded. */
  ghost function LoneLevels(mask: seq<bool>, height: nat): nat {
    if height == 0 then 0 else LoneLevels(mask, height - 1) + if LoneAt(mask, height) then 1 else 0
  }

  lemma {:induction false} LoneLevelsNone(mask: seq<bool>, height: nat)
    ensures LoneLevels(mask, height) <= height
    ensures LoneLevels(mask, height) == 0 <==> forall h | 1 <= h <= height :: !LoneAt(mask, h)
  {
    hide LoneAt;
    if height > 0 {
      LoneLevelsNone(mask, height - 1);
    }
  }

  /** A level and the one below: only the last node can lack its right child. */
  lemma LastChild(n: nat, height: nat, pos: nat)
    requires height > 0 && pos < TreeWidth(n, height)
    ensures pos + 1 < TreeWidth(n, height) ==>
              HasRight(n, height, pos) && 2 * pos + 2 < TreeWidth(n, height - 1)
    ensures pos + 1 == TreeWidth(n, height) ==>
              (HasRight(n, height, pos) <==> TreeWidth(n, height - 1) % 2 == 0)
              && TreeWidth(n, height - 1) == 2 * pos + if HasRight(n, height, pos) then 2 else 1
  {
    hide TreeWidth;
    WidthStep(n, height - 1);
  }

  /** Without a selected leaf below the last node of a level there is none below the last nodes under it. */
  lemma {:induction false} NoneBelowLast(mask: seq<bool>, height: nat)
    requires TreeWidth(|mask|, height) > 0 && !LastMatches(mask, height)
    ensures LoneLevels(mask, height) == 0
    decreases height
  {
    hide TreeWidth, ParentOfMatch, CountBelow;
    if height > 0 {
      var pos := TreeWidth(|mask|, height) - 1;
      LastChild(|mask|, height, pos);
      CountInner(mask, height, pos);
      SomeBelow(mask, height, pos);
      SomeBelow(mask, height - 1, TreeWidth(|mask|, height - 1) - 1);
      NoneBelowLast(mask, height - 1);
    }
  }

  /** The nodes with one child that are expanded below a node. */
  ghost function LoneBelow(mask: seq<bool>, height: nat, pos: nat): nat {
    if pos + 1 == TreeWidth(|mask|, height) then LoneLevels(mask, height) else 0
  }

  /** Bits and hashes of a subtree: two bits per hash but one, and one more for each node with one child. */
  lemma {:induction false} BitsPerHash(H: Hasher, txids: seq<Digest>, mask: seq<bool>, height: nat, pos: nat)
    requires |mask| == |txids| && pos < TreeWidth(|txids|, height)
    ensures |BuildBits(mask, height, pos)| + 1
              == 2 * |BuildHashes(H, txids, mask, height, pos)| + LoneBelow(mask, height, pos)
    decreases height
  {
    hide TreeWidth, BuildBits, BuildHashes, ParentOfMatch;
    if height == 0 || !ParentOfMatch(mask, height, pos) {
      BuildOuter(H, txids, mask, height, pos);
      if height > 0 && pos + 1 == TreeWidth(|mask|, height) {
        NoneBelowLast(mask, height);
      }
    } else {
      BuildInner(H, txids, mask, height, pos);
      LastChild(|mask|, height, pos);
      BitsPerHash(H, txids, mask, height - 1, 2 * pos);
      if HasRight(|txids|, height, pos) {
        BitsPerHash(H, txids, mask, height - 1, 2 * pos + 1);
      }
    }
  }

  /** The number of flag bits of a built tree, exactly. */
  lemma TreeBitsExact(H: Hasher, txids: seq<Digest>, mask: seq<bool>)
    requires mask != [] && |mask| == |txids|
    ensures |TreeBits(mask)| == 2 * |TreeHashes(H, txids, mask)| - 1 + LoneLevels(mask, Height(|mask|))
  {
    hide TreeWidth, BuildBits, BuildHashes, LoneLevels, HeightFrom;
    RootWidth(|mask|);
    BitsPerHash(H, txids, mask, Height(|mask|), 0);
  }

  /** The stated bound of 2*N-1 bits holds exactly when no level of odd width has a selected leaf below its last
      parent. */
  lemma BitBoundExact(H: Hasher, txids: seq<Digest>, mask: seq<bool>)
    requires mask != [] && |mask| == |txids|
    ensures |TreeBits(mask)| <= 2 * |TreeHashes(H, txids, mask)| - 1 <==>
              forall h | 1 <= h <= Height(|mask|) :: !LoneAt(mask, h)
  {
    hide TreeBits, TreeHashes, LoneLevels, LoneAt, HeightFrom;
    TreeBitsExact(H, txids, mask);
    LoneLevelsNone(mask, Height(|mask|));
  }

  /** Three transactions, the last one selected: four bits for two hashes. */
  lemma BitBoundFails(H: Hasher, txids: seq<Digest>)
    requires |txids| == 3
    ensures |TreeBits([false, false, true])| == 4 && |TreeHashes(H, txids, [false, false, true])| == 2
  {
    hide TreeWidth, ParentOfMatch, HeightFrom, BuildBits, BuildHashes;
    var mask := [false, false, true];
    Widths3();
    Matches3();
    RootWidth(3);
    BuildInner(H, txids, mask, 2, 0);
    BuildOuter(H, txids, mask, 1, 0);
    BuildInner(H, txids, mask, 1, 1);
    BuildOuter(H, txids, mask, 0, 2);
  }

  lemma Matches3()
    ensures var mask := [false, false, true];
            ParentOfMatch(mask, 2, 0) && !ParentOfMatch(mask, 1, 0) && ParentOfMatch(mask, 1, 1)
  {
    var mask := [false, false, true];
    assert FirstLeaf(2, 0) == 0 && EndLeaf(3, 2, 0) == 3;
    assert FirstLeaf(1, 0) == 0 && EndLeaf(3, 1, 0) == 2;
    assert FirstLeaf(1, 1) == 2 && EndLeaf(3, 1, 1) == 3;
    assert mask[2];
  }

  lemma Widths3()
    ensures TreeWidth(3, 0) == 3 && TreeWidth(3, 1) == 2 && TreeWidth(3, 2) == 1 && Height(3) == 2
  {
    hide TreeWidth;
    WidthStep(3, 0);
    WidthStep(3, 1);
    assert HeightFrom(3, 2) == 2;
    assert HeightFrom(3, 1) == 2;
  }

  // ------------------------------------------------------------ serialization

  /** The bytes of a length prefix. */
  function CompactSizeLength(n: nat): nat {
    if n < 253 then 1 else if n <= 0xFFFF then 3 else if n <= 0xFFFF_FFFF then 5 else 9
  }

  /** The bytes of the serialization: the number of transactions, the hashes, and the bits packed in bytes. */
  function SerializedSize(bits: nat, hashes: nat): nat {
    var bytes := (bits + 7) / 8;
    4 + CompactSizeLength(hashes) + 32 * hashes + CompactSizeLength(bytes) + bytes
  }

  /** 10 + ceil(32.25 * n) */
  function StatedSize(n: nat): nat { 10 + 32 * n + (n + 3) / 4 }

  lemma HeightBelow17(n: nat)
    requires n <= 0xFFFF
    ensures Height(n) <= 16
  {
    assert Pow2(16) == 0x1_0000 by {
      assert Pow(2, 8) == 256;
      PowAdd(2, 8, 8);
    }
    assert TreeWidth(n, 16) <= 1;
    hide TreeWidth, HeightFrom;
    if Height(n) > 16 {
      NotYetHigh(n, 0, 16);
    }
  }

  /**
   The stated size, for up to 65535 transactions (the stated length prefixes of at most three bytes): it bounds the
   serialization exactly when the bits take fewer than 253 bytes, or no more than a quarter byte per hash, rounded up.
   */
  lemma SizeBoundExact(H: Hasher, txids: seq<Digest>, mask: seq<bool>)
    requires mask != [] && |mask| == |txids| <= 0xFFFF
    ensures var n, lone := |TreeHashes(H, txids, mask)|, LoneLevels(mask, Height(|mask|));
            SerializedSize(|TreeBits(mask)|, n) <= StatedSize(n) <==>
              ((2 * n + 6 + lone) / 8 < 253 || (2 * n + 6 + lone) / 8 <= (n + 3) / 4)
  {
    hide TreeBits, TreeHashes, LoneLevels, HeightFrom;
    TreeBitsExact(H, txids, mask);
    TreeSizeBounds(H, txids, mask);
    LoneLevelsNone(mask, Height(|mask|));
    HeightBelow17(|mask|);
  }

  /** At most one level with an expanded node with one child: the stated size holds. */
  lemma SizeBoundHolds(H: Hasher, txids: seq<Digest>, mask: seq<bool>)
    requires mask != [] && |mask| == |txids| <= 0xFFFF
    requires LoneLevels(mask, Height(|mask|)) <= 1 || |txids| <= 1000
    ensures SerializedSize(|TreeBits(mask)|, |TreeHashes(H, txids, mask)|) <= StatedSize(|TreeHashes(H, txids, mask)|)
  {
    hide TreeBits, TreeHashes, LoneLevels, HeightFrom, SerializedSize, StatedSize;
    SizeBoundExact(H, txids, mask);
    TreeSizeBounds(H, txids, mask);
    LoneLevelsNone(mask, Height(|mask|));
    HeightBelow17(|mask|);
  }

  ghost predicate AllSelected(mask: seq<bool>) { forall i | 0 <= i < |mask| :: mask[i] }

  /** With every transaction selected, every node is expanded and every leaf gives its hash. */
  lemma {:induction false} AllHashes(H: Hasher, txids: seq<Digest>, mask: seq<bool>, height: nat, pos: nat)
    requires |mask| == |txids| && pos < TreeWidth(|txids|, height) && AllSelected(mask)
    ensures ParentOfMatch(mask, height, pos)
    ensures |BuildHashes(H, txids, mask, height, pos)| == LeavesBelow(|txids|, height, pos)
    decreases height
  {
    hide TreeWidth, BuildHashes, BuildBits, ParentOfMatch, LeavesBelow, AllSelected;
    AllMatch(mask, height, pos);
    if height == 0 {
      BuildOuter(H, txids, mask, height, pos);
      LeafRange(|txids|, pos);
    } else {
      BuildInner(H, txids, mask, height, pos);
      LeavesInner(|txids|, height, pos);
      AllHashes(H, txids, mask, height - 1, 2 * pos);
      if HasRight(|txids|, height, pos) {
        AllHashes(H, txids, mask, height - 1, 2 * pos + 1);
      }
    }
  }

  lemma AllMatch(mask: seq<bool>, height: nat, pos: nat)
    requires pos < TreeWidth(|mask|, height) && AllSelected(mask)
    ensures ParentOfMatch(mask, height, pos)
  {
    LeavesPositive(|mask|, height, pos);
    hide TreeWidth;
    assert mask[FirstLeaf(height, pos)];
  }

  lemma LeafRange(n: nat, pos: nat)
    requires pos < TreeWidth(n, 0)
    ensures LeavesBelow(n, 0, pos) == 1
  {
    WidthStep(n, 0);
    assert Pow2(0) == 1;
  }

  /** 1025 transactions, all selected: the serialization is one byte longer than stated. */
  lemma SizeBoundFails(H: Hasher, txids: seq<Digest>)
    requires |txids| == 1025
    ensures var mask := seq(1025, _ => true);
            && |TreeHashes(H, txids, mask)| == 1025 && |TreeBits(mask)| == 2059
            && SerializedSize(|TreeBits(mask)|, 1025) == StatedSize(1025) + 1
  {
    hide TreeWidth, BuildHashes, BuildBits, LoneLevels, LeavesBelow, HeightFrom;
    var mask := seq(1025, _ => true);
    RootWidth(1025);
    RootLeaves(1025);
    AllHashes(H, txids, mask, Height(1025), 0);
    assert LeavesBelow(1025, Height(1025), 0) == 1025 by { RootRange(1025); }
    TreeBitsExact(H, txids, mask);
    Lone1025(mask);
  }

  lemma RootRange(n: nat)
    requires n > 0
    ensures LeavesBelow(n, Height(n), 0) == n
  {
    RootLeaves(n);
    hide HeightFrom, FirstLeaf, EndLeaf;
  }

  /** The widths of the levels over 2^k + 1 leaves: 2^(k-h) + 1 up to level k. */
  lemma {:induction false} Widths(k: nat, h: nat)
    requires h <= k
    ensures TreeWidth(Pow2(k) + 1, h) == Pow2(k - h) + 1
    decreases h
  {
    hide TreeWidth;
    WidthStep(Pow2(k) + 1, 0);
    if h > 0 {
      Widths(k, h - 1);
      WidthStep(Pow2(k) + 1, h - 1);
      TwiceAsWide(k - h + 1);
    }
  }

  lemma {:induction false} LoneCount(mask: seq<bool>, k: nat, h: nat)
    requires |mask| == Pow2(k) + 1 && AllSelected(mask) && h <= k
    ensures LoneLevels(mask, h) == h
    decreases h
  {
    hide TreeWidth, ParentOfMatch, Pow2, AllSelected;
    if h > 0 {
      LoneCount(mask, k, h - 1);
      Widths(k, h - 1);
      Widths(k, h);
      TwiceAsWide(k - h + 1);
      AllMatch(mask, h, TreeWidth(|mask|, h) - 1);
      assert LoneAt(mask, h);
    }
  }

  lemma {:induction false} HeightOver(k: nat, h: nat)
    requires h <= k
    ensures HeightFrom(Pow2(k) + 1, h) == k + 1
    decreases k - h
  {
    hide TreeWidth;
    Widths(k, h);
    Widths(k, k);
    WidthStep(Pow2(k) + 1, k);
    assert Pow2(0) == 1;
    if h < k {
      HeightOver(k, h + 1);
    } else {
      assert HeightFrom(Pow2(k) + 1, k + 1) == k + 1;
    }
  }

  lemma Lone1025(mask: seq<bool>)
    requires |mask| == 1025 && AllSelected(mask)
    ensures LoneLevels(mask, Height(1025)) == 10
  {
    assert Pow2(10) == 1024 by {
      assert Pow(2, 5) == 32;
      PowAdd(2, 5, 5);
    }
    LoneCount(mask, 10, 10);
    HeightOver(10, 0);
    Widths(10, 10);
    hide TreeWidth, HeightFrom;
    assert Pow2(0) == 1;
    assert !LoneAt(mask, 11);
  }
}
