/**
 The partial Merkle tree as the program keeps it: an object that pushes bits and
 hashes while it builds, and moves cursors and sets a flag while it extracts.
 */
module MerkleBlock {
  import opened MerkleModel
  import opened MerkleTheorems
  import Model = MerkleModel

  /** A node without children in the partial tree is one bit and one hash. */
  lemma BuildLeaf(H: (Digest, Digest) -> Digest, txids: seq<Digest>, mask: seq<bool>, height: nat, pos: nat)
    requires |mask| == |txids| && pos < TreeWidth(|txids|, height)
    ensures height == 0 || !ParentOfMatch(mask, height, pos) ==>
              && BuildBits(mask, height, pos) == [ParentOfMatch(mask, height, pos)]
              && BuildHashes(H, txids, mask, height, pos) == [CalcHash(H, txids, height, pos)]
  {
    hide TreeWidth, ParentOfMatch, CalcHash;
  }

  /** A traversal that ends at a node: out of bits, out of hashes, or with the hash of the node. */
  lemma ExtractLeaf(H: (Digest, Digest) -> Digest, n: nat, bits: seq<bool>, hashes: seq<Digest>, height: nat,
                    pos: nat, bu: nat, hu: nat)
    ensures var e := Extract(H, n, bits, hashes, height, pos, bu, hu);
            && (bu >= |bits| ==>
                  e.hash == NULL_DIGEST && e.bitsUsed == bu && e.hashUsed == hu && e.bad && e.matches == [])
            && (bu < |bits| && (height == 0 || !bits[bu]) ==>
                  && e.bitsUsed == bu + 1
                  && (hu >= |hashes| ==> e.hash == NULL_DIGEST && e.hashUsed == hu && e.bad && e.matches == [])
                  && (hu < |hashes| ==> e.hash == hashes[hu] && e.hashUsed == hu + 1 && !e.bad
                                        && e.matches == if height == 0 && bits[bu] then [(pos, hashes[hu])] else []))
  {
    hide TreeWidth;
  }

  /** The ids and the indexes of reported leaves. */
  function Ids(matches: seq<(nat, Digest)>): seq<Digest> {
    seq(|matches|, i requires 0 <= i < |matches| => matches[i].1)
  }

  function Indexes(matches: seq<(nat, Digest)>): seq<nat> {
    seq(|matches|, i requires 0 <= i < |matches| => matches[i].0)
  }

  /** Index i belongs to id i, for every reported leaf. */
  predicate Paired(ids: seq<Digest>, indexes: seq<nat>, matches: seq<(nat, Digest)>) {
    |ids| == |indexes| == |matches| && forall i | 0 <= i < |matches| :: (indexes[i], ids[i]) == matches[i]
  }

  /** Indexes that are appended to a list belong to the ids exactly when the list was empty. */
  lemma PairedExact(before: seq<nat>, matches: seq<(nat, Digest)>)
    ensures Paired(Ids(matches), before + Indexes(matches), matches) <==> before == []
    ensures |Ids(matches)| == |before + Indexes(matches)| <==> before == []
  {
    if before == [] {
      assert before + Indexes(matches) == Indexes(matches);
    }
  }

  class CPartialMerkleTree {
    const hasher: (Digest, Digest) -> Digest
    var nTransactions: nat
    var vBits: seq<bool>
    var vHash: seq<Digest>
    var fBad: bool
    /** The ids and the indexes reported so far, in the caller's lists, and the cursors of a traversal. */
    var vMatch: seq<Digest>
    var vnIndex: seq<nat>
    var bitsUsed: nat
    var hashUsed: nat

    /** Builds the partial tree of a list of transaction ids and a selection of them. */
    constructor Build(hasher: (Digest, Digest) -> Digest, txids: seq<Digest>, mask: seq<bool>)
      requires txids != [] && |mask| == |txids|
      ensures this.hasher == hasher && nTransactions == |txids| && !fBad
      ensures vBits == TreeBits(mask) && vHash == TreeHashes(hasher, txids, mask)
    {
      this.hasher, nTransactions, fBad := hasher, |txids|, false;
      vBits, vHash, vMatch, vnIndex, bitsUsed, hashUsed := [], [], [], [], 0, 0;
      new;
      var height := FindHeight(|txids|);
      RootWidth(|txids|);
      TraverseAndBuild(height, 0, txids, mask);
    }

    /** A tree as it comes from a peer. */
    constructor Receive(hasher: (Digest, Digest) -> Digest, n: nat, bits: seq<bool>, hashes: seq<Digest>)
      ensures this.hasher == hasher && nTransactions == n && vBits == bits && vHash == hashes && !fBad
      ensures vMatch == [] && vnIndex == []
    {
      this.hasher, nTransactions, vBits, vHash, fBad := hasher, n, bits, hashes, false;
      vMatch, vnIndex, bitsUsed, hashUsed := [], [], 0, 0;
    }

    static method FindHeight(n: nat) returns (h: nat)
      ensures h == Height(n)
    {
      h := 0;
      while TreeWidth(n, h) > 1
        invariant HeightFrom(n, h) == Height(n)
        decreases TreeWidth(n, h)
      {
        WidthStep(n, h);
        h := h + 1;
      }
    }

    /** Whether a selected leaf is below a node. */
    static method FindMatch(mask: seq<bool>, height: nat, pos: nat) returns (found: bool)
      ensures found <==> ParentOfMatch(mask, height, pos)
    {
      found := false;
      var p := FirstLeaf(height, pos);
      while p < (pos + 1) * Pow2(height) && p < |mask|
        invariant FirstLeaf(height, pos) <= p && (p == FirstLeaf(height, pos) || p <= EndLeaf(|mask|, height, pos))
        invariant found <==> exists q :: FirstLeaf(height, pos) <= q < p && q < |mask| && mask[q]
        decreases |mask| - p
      {
        found := found || mask[p];
        p := p + 1;
      }
    }

    method TraverseAndBuild(height: nat, pos: nat, txids: seq<Digest>, mask: seq<bool>)
      requires |mask| == |txids| == nTransactions && pos < TreeWidth(|txids|, height)
      modifies this`vBits, this`vHash
      ensures vBits == old(vBits) + BuildBits(mask, height, pos)
      ensures vHash == old(vHash) + BuildHashes(hasher, txids, mask, height, pos)
      decreases height
    {
      hide TreeWidth, BuildBits, BuildHashes, ParentOfMatch, CalcHash;
      var f := FindMatch(mask, height, pos);
      vBits := vBits + [f];
      BuildLeaf(hasher, txids, mask, height, pos);
      if height == 0 || !f {
        vHash := vHash + [CalcHash(hasher, txids, height, pos)];
      } else {
        BuildInner(hasher, txids, mask, height, pos);
        TraverseAndBuild(height - 1, 2 * pos, txids, mask);
        if 2 * pos + 1 < TreeWidth(nTransactions, height - 1) {
          TraverseAndBuild(height - 1, 2 * pos + 1, txids, mask);
        }
      }
    }

    method TraverseAndExtract(height: nat, pos: nat) returns (hash: Digest)
      modifies this`fBad, this`vMatch, this`vnIndex, this`bitsUsed, this`hashUsed
      ensures var e := Extract(hasher, nTransactions, vBits, vHash, height, pos, old(bitsUsed), old(hashUsed));
              && hash == e.hash && bitsUsed == e.bitsUsed && hashUsed == e.hashUsed
              && fBad == (old(fBad) || e.bad)
              && vMatch == old(vMatch) + Ids(e.matches) && vnIndex == old(vnIndex) + Indexes(e.matches)
      decreases height
    {
      hide TreeWidth, Extract;
      ExtractLeaf(hasher, nTransactions, vBits, vHash, height, pos, bitsUsed, hashUsed);
      if bitsUsed >= |vBits| {
        fBad := true;
        return NULL_DIGEST;
      }
      var f := vBits[bitsUsed];
      bitsUsed := bitsUsed + 1;
      if height == 0 || !f {
        if hashUsed >= |vHash| {
          fBad := true;
          return NULL_DIGEST;
        }
        hash := vHash[hashUsed];
        hashUsed := hashUsed + 1;
        if height == 0 && f {
          vMatch := vMatch + [hash];
          vnIndex := vnIndex + [pos];
        }
      } else {
        ExtractInner(hasher, nTransactions, vBits, vHash, height, pos, bitsUsed - 1, hashUsed);
        var left := TraverseAndExtract(height - 1, 2 * pos);
        var right := left;
        if 2 * pos + 1 < TreeWidth(nTransactions, height - 1) {
          right := TraverseAndExtract(height - 1, 2 * pos + 1);
          if right == left {
            fBad := true;
          }
        }
        hash := hasher(left, right);
      }
    }

    /**
     The root this tree proves, or the null digest, also when an earlier traversal went wrong.  The ids it reports
     replace those of earlier calls; their indexes are added to those of earlier calls, and so belong to the ids
     exactly when the list of indexes was empty.
     */
    method ExtractMatches() returns (root: Digest)
      modifies this`fBad, this`vMatch, this`vnIndex, this`bitsUsed, this`hashUsed
      ensures var (hash, matches) := Model.ExtractMatches(hasher, nTransactions, vBits, vHash);
              && root == (if old(fBad) then NULL_DIGEST else hash)
              && vMatch == Ids(matches) && vnIndex == old(vnIndex) + Indexes(matches)
              && (Paired(vMatch, vnIndex, matches) <==> old(vnIndex) == [])
      ensures |vMatch| == |vnIndex| <==> old(vnIndex) == []
    {
      hide TreeWidth, Extract, HeightFrom, Paired;
      PairedExact(vnIndex, Model.ExtractMatches(hasher, nTransactions, vBits, vHash).1);
      vMatch := [];
      if nTransactions == 0 || nTransactions > MAX_TRANSACTIONS || |vHash| > nTransactions || |vBits| < |vHash| {
        return NULL_DIGEST;
      }
      var height := FindHeight(nTransactions);
      bitsUsed, hashUsed := 0, 0;
      ghost var e := Extract(hasher, nTransactions, vBits, vHash, height, 0, 0, 0);
      root := TraverseAndExtract(height, 0);
      assert vMatch == Ids(e.matches);
      if fBad || (bitsUsed + 7) / 8 != (|vBits| + 7) / 8 || hashUsed != |vHash| {
        root := NULL_DIGEST;
      }
    }
  }

  /** Two extractions with the same lists: they correspond afterwards exactly when the first reports nothing. */
  method ExtractTwice(hasher: (Digest, Digest) -> Digest, n: nat, bits: seq<bool>, hashes: seq<Digest>)
      returns (ids: seq<Digest>, indexes: seq<nat>)
    ensures var matches := Model.ExtractMatches(hasher, n, bits, hashes).1;
            && ids == Ids(matches) && indexes == Indexes(matches) + Indexes(matches)
            && (Paired(ids, indexes, matches) <==> matches == [])
  {
    hide Model.ExtractMatches;
    var tree := new CPartialMerkleTree.Receive(hasher, n, bits, hashes);
    var root := tree.ExtractMatches();
    root := tree.ExtractMatches();
    ids, indexes := tree.vMatch, tree.vnIndex;
  }

  /** A tree built for one transaction, which is selected, and extracted twice: one id and two indexes. */
  method OneExtractedTwice(hasher: (Digest, Digest) -> Digest, txid: Digest)
      returns (ids: seq<Digest>, indexes: seq<nat>)
    ensures ids == [txid] && indexes == [0, 0]
  {
    hide Model.ExtractMatches, TreeBits, TreeHashes;
    var tree := new CPartialMerkleTree.Build(hasher, [txid], [true]);
    OneExtracted(hasher, txid);
    ids, indexes := ExtractTwice(hasher, 1, tree.vBits, tree.vHash);
  }

  lemma OneExtracted(H: (Digest, Digest) -> Digest, txid: Digest)
    ensures Model.ExtractMatches(H, 1, TreeBits([true]), TreeHashes(H, [txid], [true])).1 == [(0, txid)]
  {
    hide TreeWidth, Extract, BuildBits, BuildHashes, HeightFrom;
    LowestTree();
    RootWidth(1);
    LeafAlone([txid], [true], 0);
    BuildLeaf(H, [txid], [true], 0, 0);
    assert CalcHash(H, [txid], 0, 0) == txid;
    LeafExtracted(H, 1, [true], [txid]);
  }
}
